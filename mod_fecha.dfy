/** The attendance-correction page (pages/paginaModFechaMovil.py): the ISO
    week around a reference day, the employee's events of that week, one
    summary row per day, and the manual insertion of an Entrada/Salida pair
    into the `fichajes` table. */
module ModFecha {
  import opened Wrappers
  import opened Text
  import opened Seqs
  import opened Calendar
  import opened Attendance

  /** DIAS_ES, indexed by date.weekday(). */
  const DiasEs: seq<string> := ["Lunes", "Martes", "Miércoles", "Jueves", "Viernes", "Sábado", "Domingo"]

  /** `fecha_corta_es`: the Spanish weekday name, a space, then "%d/%m"
      (or "%d/%m/%Y"). */
  function FechaCortaEs(d: Date, conAnio: bool): (r: string)
    ensures DiasEs[Weekday(d)] + " " <= r
    ensures r[|DiasEs[Weekday(d)]| + 1..] == DayMonth(d, conAnio)
  {
    DiasEs[Weekday(d)] + " " + DayMonth(d, conAnio)
  }

  /** `_iso_week_start`: the Monday of the week of `d`. It never leaves the
      calendar, since 0001-01-01 is itself a Monday. */
  function IsoWeekStart(d: Date): (r: Date)
    ensures Weekday(r) == 0
    ensures ToOrdinal(r) <= ToOrdinal(d) <= ToOrdinal(r) + 6
    ensures ToOrdinal(d) - ToOrdinal(r) == Weekday(d)
  {
    var n := ToOrdinal(d);
    OrdinalRange(d);
    WeekStartArith(n);
    var r := FromOrdinal(n - (n + 6) % 7);
    WeekStartOf(d, r);
    r
  }

  /** The date weekday(d) days before d is a Monday at most 6 days back. */
  lemma WeekStartOf(d: Date, r: Date)
    requires ToOrdinal(r) == ToOrdinal(d) - (ToOrdinal(d) + 6) % 7
    ensures Weekday(r) == 0
    ensures ToOrdinal(r) <= ToOrdinal(d) <= ToOrdinal(r) + 6
    ensures ToOrdinal(d) - ToOrdinal(r) == Weekday(d)
  {
    OrdinalRange(d);
    WeekStartOrdinals(ToOrdinal(d), ToOrdinal(r));
  }

  lemma WeekStartOrdinals(n: int, m: int)
    requires n >= 1 && m == n - (n + 6) % 7
    ensures (m + 6) % 7 == 0 && m <= n <= m + 6 && n - m == (n + 6) % 7
  {
    WeekStartArith(n);
  }

  /** Going back weekday(d) days from ordinal n lands on a Monday that is
      still a valid ordinal. */
  lemma WeekStartArith(n: int)
    requires n >= 1
    ensures n - (n + 6) % 7 >= 1 && (n - (n + 6) % 7 + 6) % 7 == 0
  {
    var q, w := (n + 6) / 7, (n + 6) % 7;
    assert n + 6 == 7 * q + w;
    assert n - w + 6 == 7 * q;
  }

  /** i days after a Monday is weekday i. */
  lemma WeekdayAfterMonday(n: int, i: int)
    requires (n + 6) % 7 == 0 && 0 <= i < 7
    ensures (n + i + 6) % 7 == i
  {
    var q := (n + 6) / 7;
    assert n + 6 == 7 * q;
    assert n + i + 6 == 7 * q + i;
  }

  /** The `count` consecutive dates starting at ordinal n. */
  function DaysFrom(n: int, count: nat): (r: seq<Date>)
    requires 1 <= n && n + count - 1 <= MaxOrdinal
    ensures |r| == count
    ensures forall i :: 0 <= i < count ==> ToOrdinal(r[i]) == n + i
    decreases count
  {
    if count == 0 then [] else [FromOrdinal(n)] + DaysFrom(n + 1, count - 1)
  }

  /** `_week_dates`: Monday to Sunday of the week of `d`; None where
      Python's date arithmetic raises OverflowError (the last, partial week
      of year 9999). */
  function WeekDates(d: Date): (r: Option<seq<Date>>)
    ensures r.None? <==> ToOrdinal(IsoWeekStart(d)) + 6 > MaxOrdinal
    ensures r.Some? ==> |r.value| == 7 && r.value[0] == IsoWeekStart(d)
    ensures r.Some? ==> forall i :: 0 <= i < 7 ==>
      ToOrdinal(r.value[i]) == ToOrdinal(IsoWeekStart(d)) + i && Weekday(r.value[i]) == i
    ensures r.Some? ==> r.value[Weekday(d)] == d
  {
    var start := IsoWeekStart(d);
    var n := ToOrdinal(start);
    OrdinalRange(start);
    if n + 6 > MaxOrdinal then None
    else
      var w := DaysFrom(n, 7);
      WeekProperties(d, start, n, w);
      Some(w)
  }

  lemma WeekProperties(d: Date, start: Date, n: int, w: seq<Date>)
    requires start == IsoWeekStart(d) && n == ToOrdinal(start)
    requires |w| == 7 && forall i :: 0 <= i < 7 ==> ToOrdinal(w[i]) == n + i
    ensures w[0] == start && w[Weekday(d)] == d
    ensures forall i :: 0 <= i < 7 ==> Weekday(w[i]) == i
  {
    OrdinalInjective(w[0], start);
    MondayRun(n, w);
    var k := Weekday(d);
    OrdinalInjective(w[k], d);
  }

  /** The seven days from a Monday are weekdays 0 to 6. */
  lemma MondayRun(n: int, w: seq<Date>)
    requires (n + 6) % 7 == 0
    requires |w| == 7 && forall i :: 0 <= i < 7 ==> ToOrdinal(w[i]) == n + i
    ensures forall i :: 0 <= i < 7 ==> Weekday(w[i]) == i
  {
    forall i | 0 <= i < 7 ensures Weekday(w[i]) == i {
      WeekdayAfterMonday(n, i);
    }
  }

  /** The date filter of `cargar_fichajes_semana`: d_ini <= date <= d_fin. */
  predicate InRange(e: ClockEvent, dIni: Date, dFin: Date)
  {
    !Before(e.local.date, dIni) && !Before(dFin, e.local.date)
  }

  /** `cargar_fichajes_semana`: the fetched rows of `empleado` whose local
      date lies in [dIni, dFin], in fetched order. */
  function LoadWeekEvents(fetched: seq<ClockEvent>, empleado: string, dIni: Date, dFin: Date): (r: seq<ClockEvent>)
    ensures forall e :: e in r <==> e in fetched && e.empleado == empleado && InRange(e, dIni, dFin)
  {
    Filter(fetched, (e: ClockEvent) => e.empleado == empleado && InRange(e, dIni, dFin))
  }

  /** The bucketing test of the week loop: the day's "%Y-%m-%d" is a prefix
      of the event's `fecha_local` text. */
  predicate InDay(d: Date, e: ClockEvent)
  {
    DayKey(d) <= FormatDateTime(e.local)
  }

  /** The prefix test picks exactly the events of that date. */
  lemma InDayIff(d: Date, e: ClockEvent)
    ensures InDay(d, e) <==> e.local.date == d
  {
    DayKeyPrefix(e.local);
    if InDay(d, e) {
      assert DayKey(d) == FormatDateTime(e.local)[..10] == DayKey(e.local.date);
      DayKeyInjective(d, e.local.date);
    }
  }

  function DayEvents(d: Date, events: seq<ClockEvent>): seq<ClockEvent>
  {
    Filter(events, (e: ClockEvent) => InDay(d, e))
  }

  /** One row of the week table: the short date, the joined marks, and the
      worked seconds. */
  datatype DayRow = DayRow(fecha: string, marcas: string, seconds: int)

  /** The marks joined with " · ", or "—" when there are none. */
  function JoinOrDash(labels: seq<string>): string
  {
    if |labels| == 0 then "—" else Join(labels, " · ")
  }

  function DayRowFor(d: Date, events: seq<ClockEvent>): DayRow
  {
    var ms := Pairing(SortByTime(DayEvents(d, events)));
    DayRow(FechaCortaEs(d, false), JoinOrDash(Labels(ms)), Total(ms))
  }

  /** One pass of the week loop: bucket the day's events, pair them and
      sum the worked seconds. */
  method BuildDayRow(d: Date, weekEvents: seq<ClockEvent>) returns (row: DayRow)
    ensures row == DayRowFor(d, weekEvents)
  {
    var dayDf := DayEvents(d, weekEvents);
    var marcas, total := PairAndSum(dayDf);
    row := DayRow(FechaCortaEs(d, false), JoinOrDash(marcas), total);
  }

  /** The week view (lines 146-172): one row per date of the week, in
      order; None where the week cannot be built. */
  method WeekView(refDay: Date, fetched: seq<ClockEvent>, empleado: string)
    returns (rows: Option<seq<DayRow>>)
    ensures rows.None? <==> WeekDates(refDay).None?
    ensures rows.Some? ==> |rows.value| == 7
    ensures rows.Some? ==> var w := WeekDates(refDay).value;
      forall i :: 0 <= i < 7 ==>
        rows.value[i] == DayRowFor(w[i], LoadWeekEvents(fetched, empleado, w[0], w[6]))
  {
    var semana := WeekDates(refDay);
    if semana.None? {
      return None;
    }
    var w := semana.value;
    var dfSem := LoadWeekEvents(fetched, empleado, w[0], w[6]);
    var acc := RowsForDays(w, dfSem);
    return Some(acc);
  }

  /** The row of a date, as a function of the date alone. */
  function RowOf(weekEvents: seq<ClockEvent>): Date -> DayRow
  {
    (d: Date) => DayRowFor(d, weekEvents)
  }

  /** The loop over the week's dates, one row per date. */
  method RowsForDays(days: seq<Date>, weekEvents: seq<ClockEvent>) returns (acc: seq<DayRow>)
    ensures |acc| == |days|
    ensures forall j :: 0 <= j < |days| ==> acc[j] == DayRowFor(days[j], weekEvents)
  {
    acc := [];
    ghost var rowOf := RowOf(weekEvents);
    for i := 0 to |days|
      invariant |acc| == i
      invariant forall j :: 0 <= j < i ==> acc[j] == rowOf(days[j])
    {
      var row := BuildDayRow(days[i], weekEvents);
      SnocMapped(acc, days, rowOf, i, row);
      acc := acc + [row];
    }
  }

  /** A day without events shows "—" and zero seconds. */
  lemma EmptyDayRow(d: Date, events: seq<ClockEvent>)
    requires forall i :: 0 <= i < |events| ==> events[i].local.date != d
    ensures DayRowFor(d, events).marcas == "—" && DayRowFor(d, events).seconds == 0
  {
    forall i | 0 <= i < |events| ensures !InDay(d, events[i]) {
      InDayIff(d, events[i]);
    }
    FilterNone(events, (e: ClockEvent) => InDay(d, e));
  }

  /** Row i of the week is headed by the i-th weekday name, Lunes first. */
  lemma WeekRowNames(refDay: Date, events: seq<ClockEvent>, i: int)
    requires WeekDates(refDay).Some? && 0 <= i < 7
    ensures DiasEs[i] + " " <= DayRowFor(WeekDates(refDay).value[i], events).fecha
  {
  }

  /** An event passes the week's date filter exactly when its date is one of
      the seven days, and then it lands in exactly one day's bucket. */
  lemma WeekBuckets(refDay: Date, e: ClockEvent)
    requires WeekDates(refDay).Some?
    ensures var w := WeekDates(refDay).value;
      var k := ToOrdinal(e.local.date) - ToOrdinal(w[0]);
      (InRange(e, w[0], w[6]) <==> 0 <= k < 7) &&
      (forall i :: 0 <= i < 7 ==> (InDay(w[i], e) <==> i == k))
  {
    var w := WeekDates(refDay).value;
    var date := e.local.date;
    BeforeIffOrdinal(date, w[0]);
    BeforeIffOrdinal(w[6], date);
    forall i | 0 <= i < 7
      ensures InDay(w[i], e) <==> i == ToOrdinal(date) - ToOrdinal(w[0])
    {
      InDayIff(w[i], e);
      if i == ToOrdinal(date) - ToOrdinal(w[0]) {
        OrdinalInjective(w[i], date);
      }
    }
  }

  // ---- manual insertion of a pair ----

  /** The observation stored with a manual pair: the stripped note, or
      "ajuste manual desde app" when the note is blank. */
  function ManualObservation(nota: string): (obs: string)
    ensures Strip(nota) != [] ==> obs == Strip(nota)
    ensures Strip(nota) == [] ==> obs == "ajuste manual desde app"
  {
    var s := Strip(nota);
    if s != [] then s else "ajuste manual desde app"
  }

  /** A stored observation is never blank. */
  lemma ManualObservationNotBlank(nota: string)
    ensures Strip(ManualObservation(nota)) != []
  {
    var s := Strip(nota);
    if s != [] {
      StripIdempotent(nota);
    } else {
      StripNonBlank("ajuste manual desde app", 0);
    }
  }

  /** A row of the `fichajes` table. */
  datatype StoredFichaje = StoredFichaje(
    id: int, empleado: string, fechaLocal: DateTime, fechaUtc: DateTime,
    tipo: Kind, observaciones: string, fuente: string)

  function AsEvent(r: StoredFichaje): ClockEvent
  {
    ClockEvent(r.id, r.empleado, r.fechaLocal, r.tipo, r.observaciones, r.fuente)
  }

  /** The two rows `insertar_par_manual` inserts; `toUtc` stands for the
      wall-clock-dependent local-to-UTC conversion. */
  function ManualPair(firstId: int, empleado: string, d: Date, hEntrada: TimeOfDay,
                      hSalida: TimeOfDay, nota: string, toUtc: DateTime -> DateTime): (rs: seq<StoredFichaje>)
    ensures |rs| == 2 && rs[0].tipo == Entrada && rs[1].tipo == Salida
    ensures rs[0].fechaLocal == DateTime(d, hEntrada) && rs[1].fechaLocal == DateTime(d, hSalida)
    ensures forall k :: 0 <= k < 2 ==>
      (rs[k].fuente == "ajuste_movil" && rs[k].observaciones == ManualObservation(nota) &&
       rs[k].empleado == empleado && rs[k].fechaUtc == toUtc(rs[k].fechaLocal) && rs[k].id == firstId + k)
  {
    var obs := ManualObservation(nota);
    var e := DateTime(d, hEntrada);
    var s := DateTime(d, hSalida);
    [StoredFichaje(firstId, empleado, e, toUtc(e), Entrada, obs, "ajuste_movil"),
     StoredFichaje(firstId + 1, empleado, s, toUtc(s), Salida, obs, "ajuste_movil")]
  }

  /** A successfully inserted pair reads back as one interval of exactly
      hSalida - hEntrada seconds, which is positive. */
  lemma ManualPairIsOneInterval(firstId: int, empleado: string, d: Date, hEntrada: TimeOfDay,
                                hSalida: TimeOfDay, nota: string, toUtc: DateTime -> DateTime)
    requires TimeBefore(hEntrada, hSalida)
    ensures var evs := seq(2, k requires 0 <= k < 2 =>
        AsEvent(ManualPair(firstId, empleado, d, hEntrada, hSalida, nota, toUtc)[k]));
      var ms := Pairing(SortByTime(evs));
      |ms| == 1 && ms[0].Paired? &&
      Total(ms) == SecondsOfDay(hSalida) - SecondsOfDay(hEntrada) > 0
  {
    var rs := ManualPair(firstId, empleado, d, hEntrada, hSalida, nota, toUtc);
    var evs := seq(2, k requires 0 <= k < 2 => AsEvent(rs[k]));
    TimeBeforeIffSeconds(hEntrada, hSalida);
    assert evs == [evs[0], evs[1]];
    SortChronological(evs);
    assert Pairing(evs[2..]) == [];
  }

  /** The in-memory `fichajes` table with its AUTOINCREMENT counter. */
  class FichajeTable {
    var rows: seq<StoredFichaje>
    var nextId: int

    /** Ids are positive, strictly increasing, and below the next id. */
    ghost predicate Valid()
      reads this
    {
      nextId >= 1 &&
      (forall i :: 0 <= i < |rows| ==> 1 <= rows[i].id < nextId) &&
      (forall i, j :: 0 <= i < j < |rows| ==> rows[i].id < rows[j].id)
    }

    constructor ()
      ensures Valid() && rows == [] && nextId == 1
    {
      rows, nextId := [], 1;
    }

    /** `insertar_par_manual`: rejects a Salida not after the Entrada and
        leaves the table alone; otherwise appends the Entrada row, then the
        Salida row. */
    method InsertarParManual(empleado: string, d: Date, hEntrada: TimeOfDay, hSalida: TimeOfDay,
                             nota: string, toUtc: DateTime -> DateTime) returns (r: Result<(), string>)
      requires Valid()
      modifies this
      ensures Valid()
      ensures r.Failure? <==> !TimeBefore(hEntrada, hSalida)
      ensures r.Failure? ==>
        (rows == old(rows) && nextId == old(nextId) &&
         r.error == "La hora de salida debe ser posterior a la hora de entrada.")
      ensures r.Success? ==>
        (nextId == old(nextId) + 2 &&
         rows == old(rows) + ManualPair(old(nextId), empleado, d, hEntrada, hSalida, nota, toUtc))
    {
      if !TimeBefore(hEntrada, hSalida) {
        return Failure("La hora de salida debe ser posterior a la hora de entrada.");
      }
      rows := rows + ManualPair(nextId, empleado, d, hEntrada, hSalida, nota, toUtc);
      nextId := nextId + 2;
      return Success(());
    }
  }
}
