// The helpers of the absences page, pages/paginaAusenciaMovil.py: the day
// count of a vacation request and the check on its range, the cancel
// button of pending requests, the optional end date of a leave notice and
// the range label of a listed one, the attachment list of a listed notice
// with its download buttons, and the name an uploaded attachment is
// stored under.
//
// The backend calls, the file system and the widgets are outside the
// model; the cells a listing shows arrive as the text `str()` gives them.

module Ausencia {
  import opened Text
  import opened Seqs
  import opened Wrappers
  import opened Calendar

  // ---- Vacation request ----

  /** `disabled=ff < fi` on "Enviar solicitud". */
  predicate SubmitDisabled(fi: Date, ff: Date)
  {
    Before(ff, fi)
  }

  /** `(ff - fi).days + 1`, shown when the range is in order; None where
      the page shows the range error instead. */
  function DiasSolicitados(fi: Date, ff: Date): (r: Option<int>)
    ensures r.None? <==> SubmitDisabled(fi, ff)
    ensures r.Some? ==> r.value >= 1
  {
    BeforeIffOrdinal(ff, fi);
    if Before(ff, fi) then None else Some(ToOrdinal(ff) - ToOrdinal(fi) + 1)
  }

  /** The count is the number of days from the first to the last, both
      included: the k-th day after `fi` exists and lies in the range for
      every k below the count, and the last one is `ff`. */
  lemma DiasCountsRange(fi: Date, ff: Date, n: int)
    requires DiasSolicitados(fi, ff) == Some(n)
    ensures AddDays(fi, n - 1) == Some(ff)
    ensures forall k :: 0 <= k < n ==>
      AddDays(fi, k).Some? && !Before(AddDays(fi, k).value, fi) && !Before(ff, AddDays(fi, k).value)
  {
    assert n == ToOrdinal(ff) - ToOrdinal(fi) + 1;
    DayInRange(fi, ff, n - 1);
    OrdinalInjective(AddDays(fi, n - 1).value, ff);
    forall k | 0 <= k < n
      ensures AddDays(fi, k).Some? && !Before(AddDays(fi, k).value, fi) && !Before(ff, AddDays(fi, k).value)
    {
      DayInRange(fi, ff, k);
    }
  }

  /** The k-th day after `fi`, for k up to the distance to `ff`, lies in
      the range. */
  lemma DayInRange(fi: Date, ff: Date, k: int)
    requires 0 <= k <= ToOrdinal(ff) - ToOrdinal(fi)
    ensures AddDays(fi, k).Some? && !Before(AddDays(fi, k).value, fi) && !Before(ff, AddDays(fi, k).value)
  {
    OrdinalRange(fi);
    OrdinalRange(ff);
    var d := AddDays(fi, k).value;
    BeforeIffOrdinal(d, fi);
    BeforeIffOrdinal(ff, d);
  }

  /** A one-day request is exactly a request that starts and ends on the
      same day. */
  lemma OneDayIffSameDate(fi: Date, ff: Date)
    ensures DiasSolicitados(fi, ff) == Some(1) <==> fi == ff
  {
    if DiasSolicitados(fi, ff) == Some(1) {
      OrdinalInjective(fi, ff);
    }
  }

  // ---- The list of vacation requests ----

  /** One listed request, with the cells the page reads. */
  datatype Solicitud = Solicitud(id: int, fechaInicio: string, fechaFin: string, dias: int,
                                 estado: string, comentario: string)

  /** `row['estado'] == 'Pendiente'`: the request gets a "Cancelar" button. */
  predicate Cancelable(s: Solicitud)
  {
    s.estado == "Pendiente"
  }

  /** The ids the "Cancelar" buttons of the list would cancel, in list order. */
  function CancelIds(rows: seq<Solicitud>): (ids: seq<int>)
    ensures |ids| <= |rows|
    ensures forall id :: id in ids <==> exists k :: 0 <= k < |rows| && rows[k].id == id && Cancelable(rows[k])
  {
    if |rows| == 0 then []
    else
      var tail := CancelIds(rows[1..]);
      assert forall k :: 1 <= k < |rows| ==> rows[k] == rows[1..][k - 1];
      if Cancelable(rows[0]) then [rows[0].id] + tail else tail
  }

  // ---- Leave notice ----

  /** `ff_b if usar_fin else None`: the end date goes with the notice only
      when "Indicar fecha fin" is checked. */
  function LeaveEndDate(usarFin: bool, ff: Date): (r: Option<Date>)
    ensures r.Some? <==> usarFin
    ensures r.Some? ==> r.value == ff
  {
    if usarFin then Some(ff) else None
  }

  /** The `fecha_fin` field `post_baja` sends: `str(ff) if ff else ""`. */
  function FechaFinField(fin: Option<Date>): (r: string)
    ensures fin.None? <==> r == []
  {
    if fin.Some? then DayKey(fin.value) else ""
  }

  /** The range label of a listed notice: the start, then " → " and the
      end only when the end is not blank. */
  function RangeLabel(inicio: string, fin: string): (r: string)
    ensures inicio <= r
    ensures r == inicio <==> Strip(fin) == []
  {
    if Strip(fin) != [] then inicio + " → " + fin else inicio
  }

  /** A notice listed as it was sent shows its end date exactly when one
      was given, and the label then ends with that date's text. */
  lemma RangeLabelOfNotice(fi: Date, usarFin: bool, ff: Date)
    ensures RangeLabel(DayKey(fi), FechaFinField(LeaveEndDate(usarFin, ff))) ==
      DayKey(fi) + (if usarFin then " → " + DayKey(ff) else "")
  {
    if usarFin {
      var k := DayKey(ff);
      assert k[0] == PadNat(ff.year, 4)[0];
      StripNonBlank(k, 0);
      assert FechaFinField(LeaveEndDate(usarFin, ff)) == k;
    } else {
      assert FechaFinField(LeaveEndDate(usarFin, ff)) == "";
      assert Strip("") == "";
    }
  }

  // ---- Attachments of a listed notice ----

  predicate NonEmptyPath(r: string)
  {
    r != []
  }

  /** `[r for r in str(archivos).split(';') if r]` when the cell is not
      blank, and no attachment otherwise. */
  function Adjuntos(archivos: string): (paths: seq<string>)
    ensures forall k :: 0 <= k < |paths| ==> paths[k] != [] && ';' !in paths[k]
  {
    if Strip(archivos) == [] then [] else Filter(Split(archivos, ';'), NonEmptyPath)
  }

  /** Stored paths joined with ';' come back as the same list, in the same
      order, when none is empty or holds ';' and the joined text is not
      blank. */
  lemma AdjuntosRoundTrip(paths: seq<string>)
    requires |paths| >= 1
    requires forall k :: 0 <= k < |paths| ==> paths[k] != [] && ';' !in paths[k]
    requires Strip(Join(paths, ";")) != []
    ensures Adjuntos(Join(paths, ";")) == paths
  {
    var s := Join(paths, ";");
    SplitJoin(paths, ';');
    FilterAll(Split(s, ';'), NonEmptyPath);
  }

  /** Empty segments, such as that of a trailing ';', never become
      attachments. */
  lemma AdjuntosSkipsEmpty(paths: seq<string>)
    requires |paths| >= 1
    requires forall k :: 0 <= k < |paths| ==> paths[k] != [] && ';' !in paths[k]
    requires Strip(Join(paths, ";")) != []
    ensures Adjuntos(Join(paths, ";") + ";") == paths
  {
    StripAppendNonBlank(Join(paths, ";"), ";");
    SplitTrailing(paths);
    FilterAppend(paths, [[]], NonEmptyPath);
    FilterAll(paths, NonEmptyPath);
    assert Filter([[]], NonEmptyPath) == [];
  }

  /** A trailing ';' splits off one empty segment. */
  lemma SplitTrailing(paths: seq<string>)
    requires |paths| >= 1
    requires forall k :: 0 <= k < |paths| ==> ';' !in paths[k]
    ensures Split(Join(paths, ";") + ";", ';') == paths + [[]]
  {
    var ext := paths + [[]];
    JoinSnoc(paths, [], ";");
    assert Join(ext, ";") == Join(paths, ";") + ";";
    forall k | 0 <= k < |ext| ensures ';' !in ext[k] {
      if k < |paths| {
        assert ext[k] == paths[k];
      }
    }
    SplitJoin(ext, ';');
  }

  /** One download button of a listed notice. */
  datatype Descarga = Descarga(caption: string, key: string)

  /** The buttons of notice `id`: "Descargar adjunto {i+1}" under the
      widget key "dl_{id}_{i}", one per attachment in list order. */
  function Descargas(id: string, archivos: string): (ds: seq<Descarga>)
    ensures |ds| == |Adjuntos(archivos)|
  {
    var paths := Adjuntos(archivos);
    seq(|paths|, i requires 0 <= i < |paths| =>
      Descarga("Descargar adjunto " + NatToString(i + 1), "dl_" + id + "_" + NatToString(i)))
  }

  /** The buttons of one notice never share a widget key or a caption, and
      they are numbered from 1. */
  lemma DescargasDistinct(id: string, archivos: string, i: int, j: int)
    requires 0 <= i < j < |Descargas(id, archivos)|
    ensures Descargas(id, archivos)[i].key != Descargas(id, archivos)[j].key
    ensures Descargas(id, archivos)[i].caption != Descargas(id, archivos)[j].caption
    ensures Descargas(id, archivos)[0].caption == "Descargar adjunto 1"
  {
    DescargaAt(id, archivos, i);
    DescargaAt(id, archivos, j);
    DescargaAt(id, archivos, 0);
    NumberedDistinct("dl_" + id + "_", i, j);
    NumberedDistinct("Descargar adjunto ", i + 1, j + 1);
    assert NatToString(1) == "1";
  }

  lemma DescargaAt(id: string, archivos: string, i: int)
    requires 0 <= i < |Descargas(id, archivos)|
    ensures Descargas(id, archivos)[i] ==
      Descarga("Descargar adjunto " + NatToString(i + 1), "dl_" + id + "_" + NatToString(i))
  {
  }

  /** A fixed prefix followed by two different numbers gives two
      different strings. */
  lemma NumberedDistinct(p: string, a: nat, b: nat)
    requires a != b
    ensures p + NatToString(a) != p + NatToString(b)
  {
    assert (p + NatToString(a))[|p|..] == NatToString(a);
    assert (p + NatToString(b))[|p|..] == NatToString(b);
    ParseNatToString(a);
    ParseNatToString(b);
  }

  // ---- Stored attachment names ----

  /** strftime('%Y%m%d_%H%M%S'). */
  function CompactStamp(dt: DateTime): (r: string)
    ensures |r| == 15
  {
    PadNat(dt.date.year, 4) + PadNat(dt.date.month, 2) + PadNat(dt.date.day, 2) + "_" +
    PadNat(dt.time.hour, 2) + PadNat(dt.time.minute, 2) + PadNat(dt.time.second, 2)
  }

  /** The name an upload is stored under: the stamp of `now`, "_", and the
      uploaded file's name. */
  function SafeName(now: DateTime, name: string): (r: string)
    ensures |r| == 16 + |name|
  {
    CompactStamp(now) + "_" + name
  }

  /** The original name behind a stored one. */
  function OriginalName(stored: string): string
  {
    if |stored| >= 16 then stored[16..] else stored
  }

  lemma SafeNameRoundTrip(now: DateTime, name: string)
    ensures OriginalName(SafeName(now, name)) == name
  {
    assert SafeName(now, name)[16..] == name;
  }

  /** Two stored names are equal only for the same second and the same
      original name: uploads of different seconds never overwrite each
      other. */
  lemma SafeNameInjective(a: DateTime, n: string, b: DateTime, m: string)
    requires SafeName(a, n) == SafeName(b, m)
    ensures a == b && n == m
  {
    SafeNameRoundTrip(a, n);
    SafeNameRoundTrip(b, m);
    assert CompactStamp(a) == SafeName(a, n)[..15] && CompactStamp(b) == SafeName(b, m)[..15];
    StampSlices(PadNat(a.date.year, 4), PadNat(a.date.month, 2), PadNat(a.date.day, 2),
                PadNat(a.time.hour, 2), PadNat(a.time.minute, 2), PadNat(a.time.second, 2));
    StampSlices(PadNat(b.date.year, 4), PadNat(b.date.month, 2), PadNat(b.date.day, 2),
                PadNat(b.time.hour, 2), PadNat(b.time.minute, 2), PadNat(b.time.second, 2));
    assert Pow10(4) == 10000 && Pow10(2) == 100;
    PadNatInjective(a.date.year, b.date.year, 4);
    PadNatInjective(a.date.month, b.date.month, 2);
    PadNatInjective(a.date.day, b.date.day, 2);
    PadNatInjective(a.time.hour, b.time.hour, 2);
    PadNatInjective(a.time.minute, b.time.minute, 2);
    PadNatInjective(a.time.second, b.time.second, 2);
  }

  /** The fields of a compact stamp sit at fixed positions. */
  lemma StampSlices(y: string, mo: string, d: string, h: string, mi: string, se: string)
    requires |y| == 4 && |mo| == 2 && |d| == 2 && |h| == 2 && |mi| == 2 && |se| == 2
    ensures var s := y + mo + d + "_" + h + mi + se;
      s[..4] == y && s[4..6] == mo && s[6..8] == d && s[9..11] == h && s[11..13] == mi && s[13..] == se
  {
  }
}
