/** Reconstruction of worked intervals from a day's clock events
    (`_pair_and_sum` in pages/paginaModFechaMovil.py): the events are sorted
    by local time, then a cursor walks them once, pairing an Entrada with an
    immediately following Salida and marking every other event as unpaired.
    Totals are kept in whole seconds. */
module Attendance {
  import opened Calendar
  import opened Seqs

  /** The `tipo` column, restricted by the table's CHECK constraint. */
  datatype Kind = Entrada | Salida

  /** One row of the `fichajes` table as the week view reads it. */
  datatype ClockEvent = ClockEvent(
    id: int, empleado: string, local: DateTime, kind: Kind,
    observaciones: string, fuente: string)

  /** One entry of the reconstruction: an Entrada/Salida pair, or a single
      event that could not be paired. */
  datatype Mark = Paired(entrada: ClockEvent, salida: ClockEvent) | Unpaired(event: ClockEvent)

  function TimeKey(e: ClockEvent): int
  {
    EpochSeconds(e.local)
  }

  /** The events in ascending order of local time. */
  predicate Chronological(s: seq<ClockEvent>)
  {
    SortedBy(s, TimeKey)
  }

  /** day_df.sort_values("fecha_local"): a chronological permutation. */
  function SortByTime(s: seq<ClockEvent>): (r: seq<ClockEvent>)
    ensures Chronological(r) && multiset(r) == multiset(s)
  {
    SortBy(s, TimeKey)
  }

  /** Events already in time order stay as they are. */
  lemma SortChronological(s: seq<ClockEvent>)
    requires Chronological(s)
    ensures SortByTime(s) == s
  {
    SortBySorted(s, TimeKey);
  }

  /** The greedy cursor scan, as a specification. */
  function Pairing(s: seq<ClockEvent>): seq<Mark>
  {
    if |s| == 0 then []
    else if s[0].kind == Entrada && |s| >= 2 && s[1].kind == Salida
    then [Paired(s[0], s[1])] + Pairing(s[2..])
    else [Unpaired(s[0])] + Pairing(s[1..])
  }

  /** The events a mark stands for, in order. */
  function Events(m: Mark): seq<ClockEvent>
  {
    match m
    case Paired(a, b) => [a, b]
    case Unpaired(e) => [e]
  }

  /** The events a reconstruction stands for, in order. */
  function Covered(ms: seq<Mark>): seq<ClockEvent>
  {
    if |ms| == 0 then [] else Events(ms[0]) + Covered(ms[1..])
  }

  /** "HH:MM - HH:MM" for a pair, "HH:MM - ?" for an unpaired event. */
  function Label(m: Mark): string
  {
    match m
    case Paired(a, b) => HourMinute(a.local.time) + " - " + HourMinute(b.local.time)
    case Unpaired(e) => HourMinute(e.local.time) + " - ?"
  }

  function Labels(ms: seq<Mark>): (r: seq<string>)
    ensures |r| == |ms|
  {
    if |ms| == 0 then [] else [Label(ms[0])] + Labels(ms[1..])
  }

  /** The seconds a mark adds to the total: exit minus entrance for a pair,
      nothing for an unpaired event. */
  function Duration(m: Mark): int
  {
    match m
    case Paired(a, b) => EpochSeconds(b.local) - EpochSeconds(a.local)
    case Unpaired(_) => 0
  }

  function Total(ms: seq<Mark>): int
  {
    if |ms| == 0 then 0 else Duration(ms[0]) + Total(ms[1..])
  }

  /** `_pair_and_sum`: the interval labels of a day and its worked seconds. */
  method PairAndSum(dayEvents: seq<ClockEvent>) returns (marcas: seq<string>, totalSeconds: int)
    ensures marcas == Labels(Pairing(SortByTime(dayEvents)))
    ensures totalSeconds == Total(Pairing(SortByTime(dayEvents)))
  {
    var times := SortByTime(dayEvents);
    marcas, totalSeconds := ScanPairs(times);
  }

  /** The cursor loop of `_pair_and_sum` over the sorted events: an Entrada
      directly followed by a Salida is emitted as one pair and the cursor
      moves by 2; any other event is emitted alone and the cursor moves by 1. */
  method ScanPairs(times: seq<ClockEvent>) returns (marcas: seq<string>, totalSeconds: int)
    ensures marcas == Labels(Pairing(times))
    ensures totalSeconds == Total(Pairing(times))
  {
    marcas, totalSeconds := [], 0;
    var i := 0;
    while i < |times|
      invariant 0 <= i <= |times|
      invariant marcas + Labels(Pairing(times[i..])) == Labels(Pairing(times))
      invariant totalSeconds + Total(Pairing(times[i..])) == Total(Pairing(times))
    {
      if times[i].kind == Entrada && i + 1 < |times| && times[i + 1].kind == Salida {
        var m := Paired(times[i], times[i + 1]);
        PairStep(times, i);
        ShiftInto(marcas, [Label(m)], Labels(Pairing(times[i + 2..])), Labels(Pairing(times)));
        marcas := marcas + [Label(m)];
        totalSeconds := totalSeconds + (EpochSeconds(times[i + 1].local) - EpochSeconds(times[i].local));
        i := i + 2;
      } else {
        var m := Unpaired(times[i]);
        SingleStep(times, i);
        ShiftInto(marcas, [Label(m)], Labels(Pairing(times[i + 1..])), Labels(Pairing(times)));
        marcas := marcas + [Label(m)];
        i := i + 1;
      }
    }
    assert times[i..] == [];
  }

  /** Moving the head of the unscanned part onto the scanned part keeps
      their concatenation. */
  lemma ShiftInto<T>(done: seq<T>, head: seq<T>, rest: seq<T>, whole: seq<T>)
    requires done + (head + rest) == whole
    ensures (done + head) + rest == whole
  {
  }

  /** One pair taken at cursor i. */
  lemma PairStep(times: seq<ClockEvent>, i: int)
    requires 0 <= i && i + 1 < |times|
    requires times[i].kind == Entrada && times[i + 1].kind == Salida
    ensures var m := Paired(times[i], times[i + 1]);
      Labels(Pairing(times[i..])) == [Label(m)] + Labels(Pairing(times[i + 2..])) &&
      Total(Pairing(times[i..])) == Duration(m) + Total(Pairing(times[i + 2..]))
  {
    var rest := times[i..];
    assert rest[2..] == times[i + 2..];
    assert rest[0] == times[i] && rest[1] == times[i + 1];
  }

  /** One event taken alone at cursor i. */
  lemma SingleStep(times: seq<ClockEvent>, i: int)
    requires 0 <= i < |times|
    requires !(times[i].kind == Entrada && i + 1 < |times| && times[i + 1].kind == Salida)
    ensures var m := Unpaired(times[i]);
      Labels(Pairing(times[i..])) == [Label(m)] + Labels(Pairing(times[i + 1..])) &&
      Total(Pairing(times[i..])) == Total(Pairing(times[i + 1..]))
  {
    var rest := times[i..];
    assert rest[1..] == times[i + 1..];
    assert rest[0] == times[i];
    assert |rest| >= 2 ==> rest[1] == times[i + 1];
  }

  // ---- what the reconstruction promises ----

  /** No events, no marks, nothing worked. */
  lemma PairingEmpty()
    ensures Pairing([]) == [] && Labels(Pairing([])) == [] && Total(Pairing([])) == 0
  {
  }

  lemma CoveredAppend(a: seq<Mark>, b: seq<Mark>)
    ensures Covered(a + b) == Covered(a) + Covered(b)
  {
    if |a| > 0 {
      assert (a + b)[1..] == a[1..] + b;
      CoveredAppend(a[1..], b);
    } else {
      assert a + b == b;
    }
  }

  /** Every event is shown exactly once, in order: the marks, read left to
      right, give back the sorted events. */
  lemma {:induction false} PairingCovers(s: seq<ClockEvent>)
    ensures Covered(Pairing(s)) == s
  {
    if |s| > 0 {
      if s[0].kind == Entrada && |s| >= 2 && s[1].kind == Salida {
        PairingCovers(s[2..]);
        assert s == [s[0], s[1]] + s[2..];
      } else {
        PairingCovers(s[1..]);
        assert s == [s[0]] + s[1..];
      }
    }
  }

  /** Each mark covers one or two events, so there are between ceil(n/2)
      and n labels. */
  lemma {:induction false} PairingBounds(s: seq<ClockEvent>)
    ensures (|s| + 1) / 2 <= |Pairing(s)| <= |s|
  {
    if |s| > 0 {
      if s[0].kind == Entrada && |s| >= 2 && s[1].kind == Salida {
        PairingBounds(s[2..]);
      } else {
        PairingBounds(s[1..]);
      }
    }
  }

  /** The first event a mark covers. */
  function First(m: Mark): ClockEvent
  {
    match m
    case Paired(a, _) => a
    case Unpaired(e) => e
  }

  /** The shape a greedy scan leaves: every pair is an Entrada followed by
      a Salida, and no unpaired Entrada is directly followed by a Salida
      (that Salida would have been taken as its exit). */
  predicate Greedy(ms: seq<Mark>)
  {
    (forall k :: 0 <= k < |ms| && ms[k].Paired? ==>
      ms[k].entrada.kind == Entrada && ms[k].salida.kind == Salida) &&
    (forall k :: 0 <= k < |ms| - 1 && ms[k].Unpaired? && ms[k].event.kind == Entrada ==>
      First(ms[k + 1]).kind != Salida)
  }

  lemma {:induction false} PairingGreedy(s: seq<ClockEvent>)
    ensures Greedy(Pairing(s))
    ensures |s| > 0 ==> |Pairing(s)| > 0 && First(Pairing(s)[0]) == s[0]
  {
    if |s| > 0 {
      if s[0].kind == Entrada && |s| >= 2 && s[1].kind == Salida {
        PairingGreedy(s[2..]);
      } else {
        PairingGreedy(s[1..]);
        if |s| >= 2 {
          assert First(Pairing(s[1..])[0]) == s[1];
        }
      }
    }
  }

  /** The greedy scan is the only segmentation of the events with the
      greedy shape: Pairing is characterised by PairingCovers and
      PairingGreedy. */
  lemma {:induction false} GreedyUnique(s: seq<ClockEvent>, ms: seq<Mark>)
    requires Covered(ms) == s && Greedy(ms)
    ensures ms == Pairing(s)
  {
    if |ms| > 0 {
      var rest := ms[1..];
      assert Greedy(rest) by {
        forall k | 0 <= k < |rest| - 1 && rest[k].Unpaired? && rest[k].event.kind == Entrada
          ensures First(rest[k + 1]).kind != Salida
        {
          assert rest[k] == ms[k + 1] && rest[k + 1] == ms[k + 2];
        }
      }
      assert s == Events(ms[0]) + Covered(rest);
      match ms[0]
      case Paired(a, b) =>
        assert s[2..] == Covered(rest);
        GreedyUnique(s[2..], rest);
      case Unpaired(e) =>
        assert s[1..] == Covered(rest);
        GreedyUnique(s[1..], rest);
        if |s| >= 2 {
          assert |rest| > 0;
          assert Covered(rest) == Events(rest[0]) + Covered(rest[1..]);
          assert First(rest[0]) == s[1] && rest[0] == ms[1];
        }
    } else {
      assert s == [];
    }
  }

  /** On chronological events every pair has its exit at or after its
      entrance, so the total is never negative. */
  lemma {:induction false} TotalNonNegative(s: seq<ClockEvent>)
    requires Chronological(s)
    ensures Total(Pairing(s)) >= 0
  {
    if |s| > 0 {
      assert Chronological(s[1..]);
      if s[0].kind == Entrada && |s| >= 2 && s[1].kind == Salida {
        assert Chronological(s[2..]);
        TotalNonNegative(s[2..]);
      } else {
        TotalNonNegative(s[1..]);
      }
    }
  }

  /** The worked seconds of a day are never negative. */
  lemma PairAndSumNonNegative(dayEvents: seq<ClockEvent>)
    ensures Total(Pairing(SortByTime(dayEvents))) >= 0
  {
    TotalNonNegative(SortByTime(dayEvents));
  }

  /** The total counts the pairs only: it is the sum of the durations of
      the Paired marks, whatever unpaired events lie between them. */
  function PairedOnly(ms: seq<Mark>): seq<Mark>
  {
    Filter(ms, (m: Mark) => m.Paired?)
  }

  lemma {:induction false} TotalIsPairsOnly(ms: seq<Mark>)
    ensures Total(ms) == Total(PairedOnly(ms))
  {
    if |ms| > 0 {
      TotalIsPairsOnly(ms[1..]);
    }
  }
}
