// Login matching, password check, page permission and the two side menus
// of ui_pages.py, over the users table (usuarios.csv) and the pages table
// (rol_paginas.csv) held as values.
//
// A table keeps its column names in file order and one map per row from
// column name to cell; an empty CSV field is NaN. Both tables arrive as
// parameters, and so do the `tipoPermiso` and `ocultarOpciones` settings.

module UiAccess {
  import opened Wrappers
  import opened Text
  import opened Seqs

  datatype Cell = Str(s: string) | Missing

  /** `str(cell)` / `astype(str)`: an empty field reads "nan". */
  function AsStr(c: Cell): string
  {
    if c.Missing? then "nan" else c.s
  }

  type Row = map<string, Cell>

  datatype Table = Table(columns: seq<string>, rows: seq<Row>)

  predicate WellFormed(t: Table)
  {
    forall i :: 0 <= i < |t.rows| ==> forall c :: c in t.columns ==> c in t.rows[i]
  }

  /** `row.get(col, default)`. */
  function Get(row: Row, col: string, default: Cell): Cell
  {
    if col in row then row[col] else default
  }

  /** The position behind `{c.lower(): c for c in df.columns}[key]`: the
      last column whose lower-case name is `key`, or -1 when none is. */
  function ResolveIndex(columns: seq<string>, key: string): (r: int)
    ensures -1 <= r < |columns|
    ensures r == -1 <==> forall i :: 0 <= i < |columns| ==> Lower(columns[i]) != key
    ensures r >= 0 ==> Lower(columns[r]) == key && forall j :: r < j < |columns| ==> Lower(columns[j]) != key
    decreases |columns|
  {
    if |columns| == 0 then -1
    else if Lower(columns[|columns| - 1]) == key then |columns| - 1
    else ResolveIndex(columns[..|columns| - 1], key)
  }

  /** The column name `key` resolves to, when there is one. */
  function ResolveColumn(columns: seq<string>, key: string): (r: Option<string>)
    ensures r.None? <==> forall i :: 0 <= i < |columns| ==> Lower(columns[i]) != key
    ensures r.Some? ==> r.value in columns && Lower(r.value) == key
  {
    var i := ResolveIndex(columns, key);
    if i < 0 then None else Some(columns[i])
  }

  // ---- _load_users ----

  /** The part of an e-mail before the first '@' (`str.split("@").str[0]`). */
  function EmailPrefix(e: string): (p: string)
    ensures '@' !in p && p <= e
  {
    var parts := Split(e, '@');
    JoinSplit(e, '@');
    JoinStartsWith(parts, "@");
    parts[0]
  }

  /** `_load_users`: without a `usuario` column (in any letter case) but
      with an `email` one, a `usuario` column holding each e-mail's prefix
      is appended. */
  function LoadUsers(t: Table): (u: Table)
    requires WellFormed(t)
    ensures WellFormed(u) && |u.rows| == |t.rows|
  {
    var cu, ce := ResolveColumn(t.columns, "usuario"), ResolveColumn(t.columns, "email");
    if cu.None? && ce.Some? then
      assert forall i :: 0 <= i < |t.rows| ==> ce.value in t.rows[i];
      Table(t.columns + ["usuario"], seq(|t.rows|, i requires 0 <= i < |t.rows| =>
        t.rows[i]["usuario" := Str(EmailPrefix(AsStr(t.rows[i][ce.value])))]))
    else t
  }

  /** A table that already has a `usuario` column, or has no `email` one,
      is left as it is; otherwise every row's other cells are kept and
      `usuario` is its e-mail prefix. */
  lemma LoadUsersSpec(t: Table)
    requires WellFormed(t)
    ensures var u := LoadUsers(t);
      (ResolveColumn(t.columns, "usuario").Some? || ResolveColumn(t.columns, "email").None?) ==> u == t
    ensures var u := LoadUsers(t);
      ResolveColumn(t.columns, "usuario").None? && ResolveColumn(t.columns, "email").Some? ==>
        var ce := ResolveColumn(t.columns, "email").value;
        u.columns == t.columns + ["usuario"] &&
        forall i :: 0 <= i < |t.rows| ==>
          ce in t.rows[i] &&
          u.rows[i]["usuario"] == Str(EmailPrefix(AsStr(t.rows[i][ce]))) &&
          forall c :: c in t.rows[i] && c != "usuario" ==> c in u.rows[i] && u.rows[i][c] == t.rows[i][c]
  {
  }

  // ---- _match_user ----

  /** `str(x).strip().lower()`. */
  function Normalize(s: string): string
  {
    Lower(Strip(s))
  }

  lemma NormalizeIdempotent(s: string)
    ensures Normalize(Normalize(s)) == Normalize(s)
  {
    LowerStripCommute(Strip(s));
    StripIdempotent(s);
    LowerIdempotent(Strip(s));
  }

  /** The mask of `_match_user` for one row and the normalised input
      `key`: the row's normalised `usuario` equals the part of `key` before
      '@' or the whole of it, or its normalised `email` equals `key`. */
  predicate RowMatchesKey(t: Table, row: Row, key: string)
  {
    var userKey := Split(key, '@')[0];
    var cu := ResolveColumn(t.columns, "usuario");
    var ce := ResolveColumn(t.columns, "email");
    (cu.Some? && cu.value in row &&
      (Normalize(AsStr(row[cu.value])) == userKey || Normalize(AsStr(row[cu.value])) == key))
    ||
    (ce.Some? && ce.value in row && Normalize(AsStr(row[ce.value])) == key)
  }

  predicate RowMatches(t: Table, row: Row, input: string)
  {
    RowMatchesKey(t, row, Normalize(input))
  }

  /** The boolean mask `_match_user` builds, as a predicate on rows. */
  function Mask(t: Table, input: string): Row -> bool
  {
    (row: Row) => RowMatches(t, row, input)
  }

  /** `_match_user`: the matching rows, in table order. */
  function MatchUser(t: Table, input: string): seq<Row>
  {
    Filter(t.rows, Mask(t, input))
  }

  /** Matching ignores the letter case and surrounding whitespace of the
      input: the normalised input matches the same rows. */
  lemma MatchUserNormalised(t: Table, input: string)
    ensures MatchUser(t, Normalize(input)) == MatchUser(t, input)
  {
    var p, q := Mask(t, Normalize(input)), Mask(t, input);
    forall i | 0 <= i < |t.rows| ensures p(t.rows[i]) == q(t.rows[i]) {
      RowMatchesNormalised(t, t.rows[i], input);
    }
    FilterCongruent(t.rows, p, q);
  }

  lemma RowMatchesNormalised(t: Table, row: Row, input: string)
    ensures RowMatches(t, row, Normalize(input)) == RowMatches(t, row, input)
  {
    NormalizeIdempotent(input);
  }

  lemma LowerKeepsNoAt(s: string)
    requires '@' !in s
    ensures '@' !in Lower(s)
  {
    forall i | 0 <= i < |s| ensures Lower(s)[i] != '@' {
      assert s[i] != '@';
    }
  }

  /** Stripping never brings in a character. */
  lemma StripKeepsAbsent(s: string, c: char)
    requires c !in s
    ensures c !in Strip(s)
  {
    var l := StripLeft(s);
    assert forall k :: 0 <= k < |l| ==> l[k] in s;
    var r := StripRight(l);
    assert forall k :: 0 <= k < |r| ==> r[k] in l;
  }

  /** The appended column is the one `usuario` resolves to. */
  lemma AppendedUsuarioResolves(columns: seq<string>)
    ensures ResolveColumn(columns + ["usuario"], "usuario") == Some("usuario")
  {
    assert Lower("usuario") == "usuario";
    assert (columns + ["usuario"])[|columns|] == "usuario";
  }

  /** A user listed only by e-mail can log in with the e-mail's prefix,
      in any letter case and with surrounding whitespace. */
  lemma LoginByEmailPrefix(t: Table, i: int, input: string)
    requires WellFormed(t) && 0 <= i < |t.rows|
    requires ResolveColumn(t.columns, "usuario").None? && ResolveColumn(t.columns, "email").Some?
    requires var ce := ResolveColumn(t.columns, "email").value;
      Normalize(input) == Normalize(EmailPrefix(AsStr(t.rows[i][ce])))
    ensures Mask(LoadUsers(t), input)(LoadUsers(t).rows[i])
  {
    var u := LoadUsers(t);
    var ce := ResolveColumn(t.columns, "email").value;
    var prefix := EmailPrefix(AsStr(t.rows[i][ce]));
    var key := Normalize(input);
    StripKeepsAbsent(prefix, '@');
    LowerKeepsNoAt(Strip(prefix));
    SplitPlain(key, '@');
    AppendedUsuarioResolves(t.columns);
    assert u.rows[i]["usuario"] == Str(prefix);
    assert RowMatches(u, u.rows[i], input);
  }

  // ---- validarUsuario ----

  /** The index of the first row satisfying `p`, given there is one. */
  function FirstMatch(rows: seq<Row>, p: Row -> bool): (i: int)
    requires exists k :: 0 <= k < |rows| && p(rows[k])
    ensures 0 <= i < |rows| && p(rows[i]) && forall j :: 0 <= j < i ==> !p(rows[j])
    decreases |rows|
  {
    if p(rows[0]) then 0
    else
      var k :| 0 <= k < |rows| && p(rows[k]);
      assert 0 <= k - 1 < |rows[1..]| && p(rows[1..][k - 1]);
      1 + FirstMatch(rows[1..], p)
  }

  /** `df[mask].iloc[0]`, or None for an empty selection: the first row
      the mask selects. */
  function FirstOf(rows: seq<Row>, p: Row -> bool): (r: Option<Row>)
    ensures r.None? <==> forall i :: 0 <= i < |rows| ==> !p(rows[i])
    ensures r.Some? ==>
      exists i :: 0 <= i < |rows| && rows[i] == r.value && p(rows[i]) && (forall j :: 0 <= j < i ==> !p(rows[j]))
  {
    var hits := Filter(rows, p);
    if |hits| == 0 then
      assert forall i :: 0 <= i < |rows| ==> rows[i] !in hits;
      None
    else
      assert hits[0] in rows;
      var i := FirstMatch(rows, p);
      FilterHeadIsFirst(rows, p, i);
      Some(hits[0])
  }

  /** The user row the pages work with: the first row of the loaded table
      that `_match_user` selects. */
  function FirstUser(t: Table, usuario: string): Option<Row>
    requires WellFormed(t)
  {
    var u := LoadUsers(t);
    FirstOf(u.rows, Mask(u, usuario))
  }

  /** `validarUsuario` as written: the first match's `clave`, passed
      through str(), equals the password; a missing column reads "". */
  function ValidarUsuarioAsWritten(t: Table, usuario: string, clave: string): bool
    requires WellFormed(t)
  {
    var first := FirstUser(t, usuario);
    first.Some? && AsStr(Get(first.value, "clave", Str(""))) == clave
  }

  /** `validarUsuario` as evidently intended: the first match has a stored
      password and it equals the one typed. */
  function ValidarUsuario(t: Table, usuario: string, clave: string): bool
    requires WellFormed(t)
  {
    var first := FirstUser(t, usuario);
    first.Some? && Get(first.value, "clave", Missing) == Str(clave)
  }

  /** The intended check holds exactly when some row matches, no earlier
      row matches, and that row stores the typed password. */
  lemma ValidarUsuarioIff(t: Table, usuario: string, clave: string)
    requires WellFormed(t)
    ensures var u := LoadUsers(t);
      var matches := Mask(u, usuario);
      ValidarUsuario(t, usuario, clave) <==>
        exists i :: 0 <= i < |u.rows| && matches(u.rows[i]) &&
          (forall j :: 0 <= j < i ==> !matches(u.rows[j])) &&
          "clave" in u.rows[i] && u.rows[i]["clave"] == Str(clave)
  {
    var u := LoadUsers(t);
    assert FirstUser(t, usuario) == FirstOf(u.rows, Mask(u, usuario));
    FirstStoresIff(u.rows, Mask(u, usuario), clave);
  }

  /** The first selected row stores `clave` exactly when some selected
      row with no selected row before it stores it. */
  lemma FirstStoresIff(rows: seq<Row>, p: Row -> bool, clave: string)
    ensures (FirstOf(rows, p).Some? && Get(FirstOf(rows, p).value, "clave", Missing) == Str(clave)) <==>
      exists i :: 0 <= i < |rows| && p(rows[i]) &&
        (forall j :: 0 <= j < i ==> !p(rows[j])) &&
        "clave" in rows[i] && rows[i]["clave"] == Str(clave)
  {
    if FirstOf(rows, p).Some? {
      var i :| 0 <= i < |rows| && rows[i] == FirstOf(rows, p).value && p(rows[i]) &&
        forall j :: 0 <= j < i ==> !p(rows[j]);
      forall k | 0 <= k < |rows| && p(rows[k]) && (forall j :: 0 <= j < k ==> !p(rows[j]))
        ensures k == i
      {
      }
    }
  }

  /** Where both checks accept, they agree: the intended one only refuses
      more, and it refuses exactly the first matches without a stored
      password. */
  lemma ValidarUsuarioRefinesAsWritten(t: Table, usuario: string, clave: string)
    requires WellFormed(t)
    ensures ValidarUsuario(t, usuario, clave) ==> ValidarUsuarioAsWritten(t, usuario, clave)
    ensures ValidarUsuarioAsWritten(t, usuario, clave) && !ValidarUsuario(t, usuario, clave) ==>
      Get(FirstUser(t, usuario).value, "clave", Missing).Missing? && (clave == "nan" || clave == "")
  {
  }

  /** A users table with one user, `ana`, whose `clave` field is empty. */
  const NanRow: Row := map["usuario" := Str("ana"), "clave" := Missing]
  const NanTable: Table := Table(["usuario", "clave"], [NanRow])

  /** An empty password cell lets the password "nan" in as written; the
      intended check refuses it. */
  lemma NanPasswordAccepted()
    ensures WellFormed(NanTable)
    ensures ValidarUsuarioAsWritten(NanTable, "ana", "nan") && !ValidarUsuario(NanTable, "ana", "nan")
  {
    SingleWordUser(NanTable, NanRow, "ana");
    EmptyClaveReadsNan(NanTable, "ana");
  }

  /** When the first match's `clave` cell is empty, the check as written
      reads it as the password "nan"; the intended check refuses it. */
  lemma EmptyClaveReadsNan(t: Table, usuario: string)
    requires WellFormed(t) && FirstUser(t, usuario).Some?
    requires "clave" in FirstUser(t, usuario).value && FirstUser(t, usuario).value["clave"] == Missing
    ensures ValidarUsuarioAsWritten(t, usuario, "nan") && !ValidarUsuario(t, usuario, "nan")
  {
  }

  /** A table with the columns `usuario` and `clave` and one row whose
      user is a lower-case word: typing that word finds the row. */
  lemma SingleWordUser(t: Table, row: Row, name: string)
    requires t.columns == ["usuario", "clave"] && t.rows == [row]
    requires "usuario" in row && "clave" in row && row["usuario"] == Str(name) && LowerWord(name)
    ensures WellFormed(t) && FirstUser(t, name) == Some(row)
  {
    assert WellFormed(t) by {
      forall i, c | 0 <= i < |t.rows| && c in t.columns ensures c in t.rows[i] {
        assert t.rows[i] == row;
      }
    }
    UsuarioClaveLoads(t);
    WordUserMatches(t, row, name);
    var p := Mask(t, name);
    assert p(t.rows[0]);
    var r := FirstOf(t.rows, p);
    var i :| 0 <= i < |t.rows| && t.rows[i] == r.value;
    assert i == 0;
  }

  /** Resolving a key against two columns: the later one wins. */
  lemma ResolveTwo(columns: seq<string>, key: string)
    requires |columns| == 2
    ensures ResolveColumn(columns, key) ==
      if Lower(columns[1]) == key then Some(columns[1])
      else if Lower(columns[0]) == key then Some(columns[0])
      else None
  {
    assert columns[..1] == [columns[0]] && columns[..1][..0] == [];
  }

  /** Two lower-case column names, the second not starting like `key`:
      `key` resolves to the first when it is that name, and to nothing
      when the first does not start like `key` either. */
  lemma ResolveTwoWords(columns: seq<string>, key: string, a: string, b: string)
    requires columns == [a, b] && LowerWord(a) && LowerWord(b)
    requires |a| > 0 && |b| > 0 && |key| > 0 && b[0] != key[0]
    ensures a == key ==> ResolveColumn(columns, key) == Some(a)
    ensures a[0] != key[0] ==> ResolveColumn(columns, key) == None
  {
    LowerWordPlain(a);
    LowerWordPlain(b);
    ResolveTwo(columns, key);
  }

  lemma UsuarioClaveLoads(t: Table)
    requires t.columns == ["usuario", "clave"]
    ensures ResolveColumn(t.columns, "usuario") == Some("usuario")
    ensures ResolveColumn(t.columns, "email") == None
    ensures WellFormed(t) ==> LoadUsers(t) == t
  {
    ResolveTwoWords(t.columns, "usuario", "usuario", "clave");
    ResolveTwoWords(t.columns, "email", "usuario", "clave");
    if WellFormed(t) {
      LoadUsersSpec(t);
    }
  }

  /** A row whose `usuario` is a lower-case word matches that word typed
      back. */
  lemma WordUserMatches(t: Table, row: Row, name: string)
    requires ResolveColumn(t.columns, "usuario") == Some("usuario")
    requires LowerWord(name) && "usuario" in row && row["usuario"] == Str(name)
    ensures RowMatches(t, row, name)
  {
    LowerWordPlain(name);
    assert Normalize(name) == name;
    SplitPlain(name, '@');
  }

  // ---- Pattern matching as `Series.str.contains` does it ----

  /** One pattern character against one text character: the regular
      expression '.' matches anything but a newline. */
  predicate CharMatches(pc: char, c: char)
  {
    if pc == '.' then c != '\n' else pc == c
  }

  predicate PatternAt(hay: string, pat: string, i: int)
    requires 0 <= i <= |hay| - |pat|
  {
    forall k :: 0 <= k < |pat| ==> CharMatches(pat[k], hay[i + k])
  }

  /** `str.contains(pat)` with its default regular-expression reading. */
  predicate RegexContains(hay: string, pat: string)
  {
    exists i :: 0 <= i <= |hay| - |pat| && PatternAt(hay, pat, i)
  }

  /** Without a '.', the pattern is a plain substring test (Python `in`). */
  lemma RegexContainsPlain(hay: string, pat: string)
    requires '.' !in pat
    ensures RegexContains(hay, pat) <==> Contains(hay, pat)
  {
    forall i | 0 <= i <= |hay| - |pat|
      ensures PatternAt(hay, pat, i) <==> OccursAt(hay, pat, i)
    {
      if PatternAt(hay, pat, i) {
        assert forall k :: 0 <= k < |pat| ==> hay[i..i + |pat|][k] == pat[k];
      }
    }
  }

  // ---- validarPagina ----

  /** `df["pagina"].str.contains(pagina)` for one row of the pages table. */
  predicate ListsPage(r: Row, pagina: string)
  {
    "pagina" in r && RegexContains(AsStr(r["pagina"]), pagina)
  }

  /** The mask `df["pagina"].str.contains(pagina)`, as a predicate on rows. */
  function PageMask(pagina: string): Row -> bool
  {
    (r: Row) => ListsPage(r, pagina)
  }

  /** The role of a user row (`row.get("rol", "")`). */
  function Rol(row: Row): Cell
  {
    Get(row, "rol", Str(""))
  }

  /** Python's `rol in roles` on two cells; None where it raises because
      either side is NaN. */
  function RolInRoles(rol: Cell, roles: Cell): Option<bool>
  {
    if rol.Str? && roles.Str? then Some(Contains(roles.s, rol.s)) else None
  }

  /** The part of `validarPagina` after the user is found; a Failure stands
      for the exception the page raises (a missing column, an empty
      `pagina` cell in the mask, or `in` on an empty role or roles cell). */
  function PageDecision(rol: Cell, paginas: Table, pagina: string, tipoPermiso: string): (r: Result<bool, string>)
    requires WellFormed(paginas)
    ensures r == Success(true) ==> exists i :: 0 <= i < |paginas.rows| && ListsPage(paginas.rows[i], pagina)
  {
    if "pagina" !in paginas.columns then Failure("KeyError: 'pagina'")
    else if exists i :: 0 <= i < |paginas.rows| && paginas.rows[i]["pagina"].Missing? then
      Failure("ValueError: NaN in mask")
    else
      var hits := Filter(paginas.rows, PageMask(pagina));
      if |hits| == 0 then Success(false)
      else if "roles" !in paginas.columns then Failure("KeyError: 'roles'")
      else
        assert hits[0] in paginas.rows;
        match RolInRoles(rol, hits[0]["roles"])
        case None => Failure("TypeError")
        case Some(inRoles) => Success(inRoles || rol == Str("admin") || tipoPermiso == "rol")
  }

  /** `validarPagina`. */
  function ValidarPagina(pagina: string, usuario: string, users: Table, paginas: Table,
                         tipoPermiso: string): (r: Result<bool, string>)
    requires WellFormed(users) && WellFormed(paginas)
    ensures r == Success(true) ==>
      FirstUser(users, usuario).Some? &&
      exists i :: 0 <= i < |paginas.rows| && ListsPage(paginas.rows[i], pagina)
  {
    match FirstUser(users, usuario)
    case None => Success(false)
    case Some(row) => PageDecision(Rol(row), paginas, pagina, tipoPermiso)
  }

  /** With the default setting `tipoPermiso == "rol"`, any role is let into
      any listed page, as long as nothing raises. */
  lemma DefaultPermisoIgnoresRole(rol: Cell, paginas: Table, pagina: string)
    requires WellFormed(paginas)
    requires PageDecision(rol, paginas, pagina, "rol").Success?
    requires exists i :: 0 <= i < |paginas.rows| && ListsPage(paginas.rows[i], pagina)
    ensures PageDecision(rol, paginas, pagina, "rol") == Success(true)
  {
    PageDecisionListed(rol, paginas, pagina, "rol");
  }

  /** For a listed page, a decision that raises nothing is the roles test
      on the first listed row, or "admin", or the `rol` setting. */
  lemma PageDecisionListed(rol: Cell, paginas: Table, pagina: string, tipoPermiso: string)
    requires WellFormed(paginas)
    requires PageDecision(rol, paginas, pagina, tipoPermiso).Success?
    requires exists i :: 0 <= i < |paginas.rows| && ListsPage(paginas.rows[i], pagina)
    ensures var hits := Filter(paginas.rows, PageMask(pagina));
      |hits| > 0 && "roles" in paginas.columns && "roles" in hits[0] &&
      RolInRoles(rol, hits[0]["roles"]).Some? &&
      PageDecision(rol, paginas, pagina, tipoPermiso) ==
        Success(RolInRoles(rol, hits[0]["roles"]).value || rol == Str("admin") || tipoPermiso == "rol")
  {
    ListedPageHit(paginas, pagina);
    var hits := Filter(paginas.rows, PageMask(pagina));
    assert hits[0] in paginas.rows;
  }

  /** A page that some row lists leaves the mask's selection non-empty. */
  lemma ListedPageHit(paginas: Table, pagina: string)
    requires exists i :: 0 <= i < |paginas.rows| && ListsPage(paginas.rows[i], pagina)
    ensures |Filter(paginas.rows, PageMask(pagina))| > 0
  {
    var p := PageMask(pagina);
    var i :| 0 <= i < |paginas.rows| && ListsPage(paginas.rows[i], pagina);
    assert p(paginas.rows[i]);
    assert paginas.rows[i] in Filter(paginas.rows, p);
  }

  /** Under any other setting, the roles of the first listed page decide:
      access holds exactly when the role occurs in them or is "admin". */
  lemma PageDecisionByRole(rol: string, paginas: Table, pagina: string, tipoPermiso: string)
    requires WellFormed(paginas) && tipoPermiso != "rol"
    requires PageDecision(Str(rol), paginas, pagina, tipoPermiso).Success?
    requires exists i :: 0 <= i < |paginas.rows| && ListsPage(paginas.rows[i], pagina)
    ensures var first := paginas.rows[FirstPage(paginas.rows, pagina)];
      "roles" in first && first["roles"].Str? &&
      (PageDecision(Str(rol), paginas, pagina, tipoPermiso).value <==>
        Contains(first["roles"].s, rol) || rol == "admin")
  {
    var p := PageMask(pagina);
    var i := FirstPage(paginas.rows, pagina);
    FilterHeadIsFirst(paginas.rows, p, i);
  }

  /** The index of the first row of the pages table that lists `pagina`. */
  function FirstPage(rows: seq<Row>, pagina: string): (i: int)
    requires exists k :: 0 <= k < |rows| && ListsPage(rows[k], pagina)
    ensures 0 <= i < |rows| && ListsPage(rows[i], pagina)
    ensures forall j :: 0 <= j < i ==> !ListsPage(rows[j], pagina)
  {
    FirstMatch(rows, PageMask(pagina))
  }

  /** An admin is let into every listed page under any setting. */
  lemma AdminAlwaysAllowed(paginas: Table, pagina: string, tipoPermiso: string)
    requires WellFormed(paginas)
    requires PageDecision(Str("admin"), paginas, pagina, tipoPermiso).Success?
    requires exists i :: 0 <= i < |paginas.rows| && ListsPage(paginas.rows[i], pagina)
    ensures PageDecision(Str("admin"), paginas, pagina, tipoPermiso) == Success(true)
  {
    PageDecisionListed(Str("admin"), paginas, pagina, tipoPermiso);
  }

  // ---- generarMenu ----

  /** A link of the fixed menu of `generarMenu`. */
  datatype Link = Link(page: string, caption: string)

  const FichajeLink: Link := Link("pages/paginaFichajeMovil.py", "Fichajes")
  const AusenciaLink: Link := Link("pages/paginaAusenciaMovil.py", "Ausencia")
  const ModFechaLink: Link := Link("pages/paginaModFechaMovil.py", "Modificaciones de fechas")

  /** `rol in [...]`: an empty role cell is in no list. */
  predicate RolIn(rol: Cell, names: seq<string>)
  {
    rol.Str? && rol.s in names
  }

  /** The links `generarMenu` shows for a role, in menu order. */
  function LinksFor(rol: Cell): seq<Link>
  {
    (if RolIn(rol, ["Fichaje", "admin", "empleado"]) then [FichajeLink] else []) +
    (if RolIn(rol, ["Ausencia", "admin", "empleado"]) then [AusenciaLink] else []) +
    (if RolIn(rol, ["Modificación fecha", "admin", "empleado"]) then [ModFechaLink] else [])
  }

  /** `generarMenu`: None when the user is not found (the warning), else
      the links of the first match's role. */
  function MenuFijo(users: Table, usuario: string): Option<seq<Link>>
    requires WellFormed(users)
  {
    match FirstUser(users, usuario)
    case None => None
    case Some(row) => Some(LinksFor(Rol(row)))
  }

  /** "admin" and "empleado" see the three links; each single-page role
      sees only its page; any other role, or none, sees no link. */
  lemma LinksForRoles(rol: Cell)
    ensures rol == Str("admin") || rol == Str("empleado") ==> LinksFor(rol) == [FichajeLink, AusenciaLink, ModFechaLink]
    ensures rol == Str("Fichaje") ==> LinksFor(rol) == [FichajeLink]
    ensures rol == Str("Ausencia") ==> LinksFor(rol) == [AusenciaLink]
    ensures rol == Str("Modificación fecha") ==> LinksFor(rol) == [ModFechaLink]
    ensures !RolIn(rol, ["Fichaje", "Ausencia", "Modificación fecha", "admin", "empleado"]) ==> LinksFor(rol) == []
  {
  }

  // ---- generarMenuRoles ----

  /** One `st.page_link` of `generarMenuRoles`. */
  datatype MenuEntry = MenuEntry(pagina: Cell, nombre: Cell, icono: Cell, disabled: bool)

  datatype MenuOutcome = UserNotFound | Menu(entries: seq<MenuEntry>) | Crash

  /** The row has the cells `st.page_link` reads. */
  predicate HasLinkCells(r: Row)
  {
    "pagina" in r && "nombre" in r && "icono" in r
  }

  function EntryOf(r: Row, disabled: bool): MenuEntry
    requires HasLinkCells(r)
  {
    MenuEntry(r["pagina"], r["nombre"], r["icono"], disabled)
  }

  /** Every given page as an enabled option; None where a row lacks a cell
      the link needs. */
  function EnabledEntries(rows: seq<Row>): (r: Option<seq<MenuEntry>>)
    ensures r.Some? <==> forall i :: 0 <= i < |rows| ==> HasLinkCells(rows[i])
    ensures r.Some? ==> (|r.value| == |rows| &&
      forall i :: 0 <= i < |rows| ==> HasLinkCells(rows[i]) && r.value[i] == EntryOf(rows[i], false))
  {
    if |rows| == 0 then Some([])
    else if !HasLinkCells(rows[0]) then None
    else match EnabledEntries(rows[1..])
      case None =>
        assert exists i :: 0 <= i < |rows[1..]| && !HasLinkCells(rows[1..][i]);
        None
      case Some(tail) => Some([EntryOf(rows[0], false)] + tail)
  }

  /** A row the disabling loop gets through: it has roles, the `in` test
      does not raise, and it has the link cells. */
  predicate Showable(r: Row, rol: Cell)
  {
    "roles" in r && RolInRoles(rol, r["roles"]).Some? && HasLinkCells(r)
  }

  /** Whether the option for `r` is disabled. */
  function Disabled(r: Row, rol: Cell): bool
    requires Showable(r, rol)
  {
    !(RolInRoles(rol, r["roles"]).value || rol == Str("admin"))
  }

  /** Every page as an option, disabled unless the role is in its roles or
      is "admin"; None where the loop raises. */
  function ShownEntries(rows: seq<Row>, rol: Cell): (r: Option<seq<MenuEntry>>)
    ensures r.Some? <==> forall i :: 0 <= i < |rows| ==> Showable(rows[i], rol)
    ensures r.Some? ==> (|r.value| == |rows| &&
      forall i :: 0 <= i < |rows| ==> Showable(rows[i], rol) && r.value[i] == EntryOf(rows[i], Disabled(rows[i], rol)))
  {
    if |rows| == 0 then Some([])
    else if !Showable(rows[0], rol) then None
    else match ShownEntries(rows[1..], rol)
      case None =>
        assert exists i :: 0 <= i < |rows[1..]| && !Showable(rows[1..][i], rol);
        None
      case Some(tail) => Some([EntryOf(rows[0], Disabled(rows[0], rol))] + tail)
  }

  /** `dfPaginas['roles'].str.contains(rol)` for one row. */
  predicate RolesMatch(r: Row, rol: string)
  {
    "roles" in r && RegexContains(AsStr(r["roles"]), rol)
  }

  /** The mask `dfPaginas['roles'].str.contains(rol)`. */
  function RolesMask(rol: string): Row -> bool
  {
    (r: Row) => RolesMatch(r, rol)
  }

  function OfOption(o: Option<seq<MenuEntry>>): MenuOutcome
  {
    if o.Some? then Menu(o.value) else Crash
  }

  /** The options of `generarMenuRoles` once the role is known. */
  function MenuFor(rol: Cell, paginas: Table, ocultar: bool): MenuOutcome
    requires WellFormed(paginas)
  {
    if ocultar then
      if rol == Str("admin") then OfOption(EnabledEntries(paginas.rows))
      else if "roles" !in paginas.columns || rol.Missing? then Crash
      else if exists i :: 0 <= i < |paginas.rows| && paginas.rows[i]["roles"].Missing? then Crash
      else OfOption(EnabledEntries(Filter(paginas.rows, RolesMask(rol.s))))
    else OfOption(ShownEntries(paginas.rows, rol))
  }

  /** `generarMenuRoles`. */
  function MenuRoles(users: Table, usuario: string, paginas: Table, ocultar: bool): MenuOutcome
    requires WellFormed(users) && WellFormed(paginas)
  {
    match FirstUser(users, usuario)
    case None => UserNotFound
    case Some(row) => MenuFor(Rol(row), paginas, ocultar)
  }

  /** Hiding: a non-admin sees, enabled and in table order, exactly the
      pages whose roles match their role. */
  lemma HiddenMenuOwnPages(rol: string, paginas: Table)
    requires WellFormed(paginas) && rol != "admin"
    requires MenuFor(Str(rol), paginas, true).Menu?
    ensures var es := MenuFor(Str(rol), paginas, true).entries;
      var kept := Filter(paginas.rows, RolesMask(rol));
      |es| == |kept| &&
      forall k :: 0 <= k < |es| ==>
        kept[k] in paginas.rows && RolesMatch(kept[k], rol) &&
        HasLinkCells(kept[k]) && es[k] == EntryOf(kept[k], false)
  {
  }

  /** Showing: every page is listed, in order, disabled exactly when the
      role is neither inside its roles nor "admin". */
  lemma ShownMenuAllPages(rol: string, paginas: Table)
    requires WellFormed(paginas)
    requires MenuFor(Str(rol), paginas, false).Menu?
    ensures var es := MenuFor(Str(rol), paginas, false).entries;
      |es| == |paginas.rows| &&
      forall i :: 0 <= i < |es| ==>
        "roles" in paginas.rows[i] && paginas.rows[i]["roles"].Str? &&
        es[i].pagina == paginas.rows[i]["pagina"] &&
        (es[i].disabled <==> !(Contains(paginas.rows[i]["roles"].s, rol) || rol == "admin"))
  {
  }

  /** An admin gets every page, enabled and in table order, in either
      mode. */
  lemma AdminSeesEverything(paginas: Table, ocultar: bool)
    requires WellFormed(paginas)
    requires MenuFor(Str("admin"), paginas, ocultar).Menu?
    ensures var es := MenuFor(Str("admin"), paginas, ocultar).entries;
      |es| == |paginas.rows| &&
      forall i :: 0 <= i < |es| ==>
        HasLinkCells(paginas.rows[i]) && es[i] == EntryOf(paginas.rows[i], false)
  {
  }

  predicate Enabled(e: MenuEntry)
  {
    !e.disabled
  }

  /** Over the rows: for a non-admin role without '.', the hiding filter
      followed by the link loop gives the enabled options of the
      disabling loop. */
  lemma {:induction false} HideShowRows(rows: seq<Row>, rol: string)
    requires '.' !in rol && rol != "admin"
    requires ShownEntries(rows, Str(rol)).Some?
    ensures EnabledEntries(Filter(rows, RolesMask(rol))) ==
      Some(Filter(ShownEntries(rows, Str(rol)).value, Enabled))
  {
    var p := RolesMask(rol);
    if |rows| > 0 {
      var r0 := rows[0];
      HideShowRows(rows[1..], rol);
      var tail := ShownEntries(rows[1..], Str(rol)).value;
      var shown := ShownEntries(rows, Str(rol)).value;
      assert shown == [EntryOf(r0, Disabled(r0, Str(rol)))] + tail;
      assert shown[1..] == tail;
      RegexContainsPlain(r0["roles"].s, rol);
      assert p(r0) <==> !Disabled(r0, Str(rol));
      if p(r0) {
        var kept := Filter(rows[1..], p);
        assert Filter(rows, p) == [r0] + kept;
        assert ([r0] + kept)[1..] == kept;
      }
    }
  }

  /** For a role without '.', both modes agree: hiding shows exactly the
      options that showing leaves enabled, in the same order. */
  lemma HideAgreesWithShow(rol: string, paginas: Table)
    requires WellFormed(paginas) && '.' !in rol
    requires "roles" in paginas.columns
    requires MenuFor(Str(rol), paginas, false).Menu?
    ensures MenuFor(Str(rol), paginas, true) == Menu(Filter(MenuFor(Str(rol), paginas, false).entries, Enabled))
  {
    if rol == "admin" {
      AdminHideAgrees(paginas);
    } else {
      OtherHideAgrees(rol, paginas);
    }
  }

  lemma AdminHideAgrees(paginas: Table)
    requires WellFormed(paginas) && ShownEntries(paginas.rows, Str("admin")).Some?
    ensures MenuFor(Str("admin"), paginas, true) == Menu(Filter(ShownEntries(paginas.rows, Str("admin")).value, Enabled))
  {
    var rows: seq<Row> := paginas.rows;
    var shown := ShownEntries(rows, Str("admin")).value;
    forall i | 0 <= i < |rows| ensures HasLinkCells(rows[i]) && shown[i] == EntryOf(rows[i], false) {
      assert Showable(rows[i], Str("admin"));
    }
    var en := EnabledEntries(rows);
    assert en.Some? && en.value == shown;
    FilterAll(shown, Enabled);
    assert MenuFor(Str("admin"), paginas, true) == Menu(en.value);
  }

  lemma OtherHideAgrees(rol: string, paginas: Table)
    requires WellFormed(paginas) && '.' !in rol && rol != "admin"
    requires "roles" in paginas.columns
    requires ShownEntries(paginas.rows, Str(rol)).Some?
    ensures MenuFor(Str(rol), paginas, true) == Menu(Filter(ShownEntries(paginas.rows, Str(rol)).value, Enabled))
  {
    HiddenIsFiltered(rol, paginas);
    HideShowRows(paginas.rows, rol);
  }

  /** For a non-admin role the loop of the showing mode gets through every
      row, so the hiding mode raises nothing and lists the rows the mask
      keeps. */
  lemma HiddenIsFiltered(rol: string, paginas: Table)
    requires WellFormed(paginas) && rol != "admin"
    requires "roles" in paginas.columns
    requires ShownEntries(paginas.rows, Str(rol)).Some?
    ensures MenuFor(Str(rol), paginas, true) == OfOption(EnabledEntries(Filter(paginas.rows, RolesMask(rol))))
  {
    var rows: seq<Row> := paginas.rows;
    forall i: int | 0 <= i < |rows| ensures "roles" in rows[i] && rows[i]["roles"].Str? {
      assert Showable(rows[i], Str(rol));
    }
    assert Str(rol) != Str("admin");
  }
}
