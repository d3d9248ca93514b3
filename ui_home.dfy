// The home screen helpers of ui_pages.py: the greeting by hour band, the
// Spanish "today" line, and the notifications kept in a CSV table that the
// home screen reads and can mark as read.

module UiHome {
  import opened Wrappers
  import opened Text
  import opened Calendar
  import opened Seqs

  // ---- Greeting and date line ----

  const BuenosDias: string := "¡Buenos días"
  const BuenasTardes: string := "¡Buenas tardes"
  const BuenasNoches: string := "¡Buenas noches"

  /** `_saludo`. */
  function Saludo(hora: int): string
  {
    if 6 <= hora < 13 then BuenosDias
    else if 13 <= hora < 20 then BuenasTardes
    else BuenasNoches
  }

  /** The three bands partition the hours: exactly one greeting applies to
      each hour of the day, and the bands are 6-12, 13-19 and the rest. */
  lemma SaludoBands(hora: int)
    requires 0 <= hora < 24
    ensures Saludo(hora) in [BuenosDias, BuenasTardes, BuenasNoches]
    ensures Saludo(hora) == BuenosDias <==> 6 <= hora <= 12
    ensures Saludo(hora) == BuenasTardes <==> 13 <= hora <= 19
    ensures Saludo(hora) == BuenasNoches <==> hora < 6 || hora >= 20
  {
  }

  const Meses: seq<string> := ["Enero", "Febrero", "Marzo", "Abril", "Mayo", "Junio",
    "Julio", "Agosto", "Septiembre", "Octubre", "Noviembre", "Diciembre"]

  /** `_spanish_date`: "Hoy, {day} de {Mes}" with the month's name taken at
      index month - 1. */
  function SpanishDate(d: Date): string
  {
    "Hoy, " + NatToString(d.day) + " de " + Meses[d.month - 1]
  }

  /** The month number of a Spanish month name, 0 for anything else. */
  function MesNumero(name: string): int
  {
    if name == "Enero" then 1 else if name == "Febrero" then 2
    else if name == "Marzo" then 3 else if name == "Abril" then 4
    else if name == "Mayo" then 5 else if name == "Junio" then 6
    else if name == "Julio" then 7 else if name == "Agosto" then 8
    else if name == "Septiembre" then 9 else if name == "Octubre" then 10
    else if name == "Noviembre" then 11 else if name == "Diciembre" then 12
    else 0
  }

  /** Reads a date line back into (day, month); None when it is not one. */
  function ParseSpanishDate(s: string): Option<(int, int)>
  {
    var parts := Split(s, ' ');
    if |parts| == 4 && parts[0] == "Hoy," && parts[2] == "de" && AllDigits(parts[1])
       && MesNumero(parts[3]) != 0
    then Some((ParseDigits(parts[1]) as int, MesNumero(parts[3])))
    else None
  }

  lemma MesRoundTrip(m: int)
    requires 1 <= m <= 12
    ensures MesNumero(Meses[m - 1]) == m && ' ' !in Meses[m - 1]
  {
  }

  /** The date line reads back as the day and month it was made from, so
      it names them unambiguously. */
  lemma SpanishDateRoundTrip(d: Date)
    ensures ParseSpanishDate(SpanishDate(d)) == Some((d.day, d.month))
  {
    var day, mes := NatToString(d.day), Meses[d.month - 1];
    MesRoundTrip(d.month);
    assert ' ' !in day by {
      assert forall i :: 0 <= i < |day| ==> IsDigit(day[i]);
    }
    SplitDateLine(day, mes);
    ParseNatToString(d.day);
  }

  /** The date line splits on spaces into its four words. */
  lemma SplitDateLine(day: string, mes: string)
    requires ' ' !in day && ' ' !in mes
    ensures Split("Hoy, " + day + " de " + mes, ' ') == ["Hoy,", day, "de", mes]
  {
    var s := "Hoy, " + day + " de " + mes;
    assert s == "Hoy," + [' '] + (day + [' '] + ("de" + [' '] + mes));
    SplitAfter("Hoy,", day + [' '] + ("de" + [' '] + mes), ' ');
    SplitAfter(day, "de" + [' '] + mes, ' ');
    SplitAfter("de", mes, ' ');
    SplitPlain(mes, ' ');
  }

  // ---- Notifications ----

  /** One line of notificaciones.csv; `usuario` and `leido` may be empty
      (NaN) cells. */
  datatype Notif = Notif(usuario: Option<string>, titulo: string, fecha: string, leido: Option<int>)

  /** A notification as `_leer_notificaciones` hands it out: NaN `leido`
      read as 0. */
  datatype Shown = Shown(titulo: string, fecha: string, leido: int)

  function ShownOf(n: Notif): Shown
  {
    Shown(n.titulo, n.fecha, if n.leido.Some? then n.leido.value else 0)
  }

  /** The rows of `usuario`, in file order, with `leido` filled. */
  function UserShown(rows: seq<Notif>, usuario: string): (r: seq<Shown>)
    ensures |r| <= |rows|
  {
    if |rows| == 0 then []
    else if rows[0].usuario == Some(usuario) then [ShownOf(rows[0])] + UserShown(rows[1..], usuario)
    else UserShown(rows[1..], usuario)
  }

  /** The mask `df["usuario"] == usuario`; a NaN `usuario` matches no one. */
  function OwnedBy(usuario: string): Notif -> bool
  {
    (n: Notif) => n.usuario == Some(usuario)
  }

  /** A user's notifications are exactly the table's rows of that user,
      in file order, each read with a NaN `leido` as 0. */
  lemma {:induction false} UserShownIsFilter(rows: seq<Notif>, usuario: string)
    ensures var shown := UserShown(rows, usuario);
      var kept := Filter(rows, OwnedBy(usuario));
      |shown| == |kept| && forall k :: 0 <= k < |shown| ==> shown[k] == ShownOf(kept[k])
  {
    if |rows| > 0 {
      UserShownIsFilter(rows[1..], usuario);
      var tail := Filter(rows[1..], OwnedBy(usuario));
      if rows[0].usuario == Some(usuario) {
        assert Filter(rows, OwnedBy(usuario)) == [rows[0]] + tail;
        assert UserShown(rows, usuario) == [ShownOf(rows[0])] + UserShown(rows[1..], usuario);
      } else {
        assert Filter(rows, OwnedBy(usuario)) == tail;
      }
    }
  }

  /** How many of them are unread (`leido == 0`). */
  function CountUnread(s: seq<Shown>): (n: nat)
    ensures n <= |s|
  {
    if |s| == 0 then 0 else (if s[0].leido == 0 then 1 else 0) + CountUnread(s[1..])
  }

  /** The mask `df_notif["leido"] == 0`. */
  predicate Unread(x: Shown)
  {
    x.leido == 0
  }

  /** The count is the number of rows of `pendientes`, the notifications
      whose `leido` is 0. */
  lemma {:induction false} CountUnreadIsFilter(s: seq<Shown>)
    ensures CountUnread(s) == |Filter(s, Unread)|
  {
    if |s| > 0 {
      CountUnreadIsFilter(s[1..]);
      assert s == [s[0]] + s[1..];
      FilterAppend([s[0]], s[1..], Unread);
    }
  }

  /** One row after `_marcar_todas_leidas`: the user's rows get 1; where
      the file had no `leido` column every other row gets 0. */
  function MarkRow(n: Notif, usuario: string, hadColumn: bool): Notif
  {
    if n.usuario == Some(usuario) then n.(leido := Some(1))
    else if hadColumn then n
    else n.(leido := Some(0))
  }

  function MarkAll(rows: seq<Notif>, usuario: string, hadColumn: bool): (r: seq<Notif>)
    ensures |r| == |rows|
    ensures forall i :: 0 <= i < |rows| ==> r[i] == MarkRow(rows[i], usuario, hadColumn)
  {
    if |rows| == 0 then [] else [MarkRow(rows[0], usuario, hadColumn)] + MarkAll(rows[1..], usuario, hadColumn)
  }

  /** After marking, the user has no unread notification. */
  lemma {:induction false} MarkAllClearsUnread(rows: seq<Notif>, usuario: string, hadColumn: bool)
    ensures CountUnread(UserShown(MarkAll(rows, usuario, hadColumn), usuario)) == 0
  {
    if |rows| > 0 {
      var m := MarkAll(rows, usuario, hadColumn);
      assert m[1..] == MarkAll(rows[1..], usuario, hadColumn);
      MarkAllClearsUnread(rows[1..], usuario, hadColumn);
    }
  }

  /** Marking leaves every other user's notifications, as read back,
      exactly as they were; rows whose `leido` was NaN still read as 0. */
  lemma {:induction false} MarkAllKeepsOthers(rows: seq<Notif>, usuario: string, hadColumn: bool, other: string)
    requires other != usuario
    requires !hadColumn ==> forall i :: 0 <= i < |rows| ==> rows[i].leido.None?
    ensures UserShown(MarkAll(rows, usuario, hadColumn), other) == UserShown(rows, other)
  {
    if |rows| > 0 {
      var m := MarkAll(rows, usuario, hadColumn);
      assert m[1..] == MarkAll(rows[1..], usuario, hadColumn);
      MarkAllKeepsOthers(rows[1..], usuario, hadColumn, other);
    }
  }

  /** Marking keeps every row's user, title and date, and the user's rows
      all read back as read. */
  lemma {:induction false} MarkAllKeepsUserRows(rows: seq<Notif>, usuario: string, hadColumn: bool)
    ensures var after := UserShown(MarkAll(rows, usuario, hadColumn), usuario);
      var before := UserShown(rows, usuario);
      |after| == |before| &&
      forall i :: 0 <= i < |after| ==>
        after[i] == Shown(before[i].titulo, before[i].fecha, 1)
  {
    if |rows| > 0 {
      var m := MarkAll(rows, usuario, hadColumn);
      assert m[1..] == MarkAll(rows[1..], usuario, hadColumn);
      MarkAllKeepsUserRows(rows[1..], usuario, hadColumn);
    }
  }

  /** notificaciones.csv: whether it exists, whether it has a `leido`
      column, and its rows. */
  class NotificationStore {
    var present: bool
    var hasLeido: bool
    var rows: seq<Notif>

    /** Without a `leido` column no row carries a value for it. */
    ghost predicate Valid()
      reads this
    {
      !hasLeido ==> forall i :: 0 <= i < |rows| ==> rows[i].leido.None?
    }

    constructor (present: bool, hasLeido: bool, rows: seq<Notif>)
      requires !hasLeido ==> forall i :: 0 <= i < |rows| ==> rows[i].leido.None?
      ensures Valid()
      ensures this.present == present && this.hasLeido == hasLeido && this.rows == rows
    {
      this.present := present;
      this.hasLeido := hasLeido;
      this.rows := rows;
    }

    /** `_leer_notificaciones`: the user's notifications, or none when the
        file does not exist. */
    function Leer(usuario: string): seq<Shown>
      reads this
    {
      if present then UserShown(rows, usuario) else []
    }

    /** The badge count `n_pend`. */
    function Pendientes(usuario: string): nat
      reads this
    {
      CountUnread(Leer(usuario))
    }

    /** `_marcar_todas_leidas`: nothing happens when the file is missing;
        otherwise a missing `leido` column is created as 0 and the user's
        rows are set to 1. */
    method MarcarTodasLeidas(usuario: string)
      requires Valid()
      modifies this
      ensures Valid()
      ensures present == old(present)
      ensures !old(present) ==> rows == old(rows) && hasLeido == old(hasLeido)
      ensures old(present) ==> hasLeido && rows == MarkAll(old(rows), usuario, old(hasLeido))
      ensures Pendientes(usuario) == 0
      ensures forall other :: other != usuario ==> Leer(other) == old(Leer(other))
    {
      if !present {
        return;
      }
      var hadColumn := hasLeido;
      MarkAllClearsUnread(rows, usuario, hadColumn);
      forall other | other != usuario
        ensures UserShown(MarkAll(rows, usuario, hadColumn), other) == UserShown(rows, other)
      {
        MarkAllKeepsOthers(rows, usuario, hadColumn, other);
      }
      hasLeido := true;
      rows := MarkAll(rows, usuario, hadColumn);
    }
  }
}
