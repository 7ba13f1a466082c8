/** The event loop of src/observer/observer.c:110-183, and what a whole run leaves in the log. */
module Observer {
  import opened Bytes
  import opened JsonRoundTrip
  import opened JsonText
  import opened JsonTrees
  import opened LogFormat
  import opened Logger
  import opened Options

  /** What the kernel reports in one turn of the loop, and how the calls of that turn fare. */
  datatype Stop =
    | ContinueFailed
    | TraceeGone
    | Seccomp(violation: Option<Violation>, opens: bool)
    | OtherStop

  /** How far the loop got: still running, left through `exit`, or left through `break`. */
  datatype Ending = StillRunning | Exited | LeftLoop

  /** The violations whose log call succeeded, in order. */
  function Logged(stops: seq<Stop>): seq<Violation> {
    if stops == [] then []
    else
      match stops[0]
      case ContinueFailed => []
      case TraceeGone => []
      case Seccomp(v, opens) =>
        if v.None? then [] else (if opens then [v.value] else []) + Logged(stops[1..])
      case OtherStop => Logged(stops[1..])
  }

  function EndOf(stops: seq<Stop>): Ending {
    if stops == [] then StillRunning
    else
      match stops[0]
      case ContinueFailed => Exited
      case TraceeGone => LeftLoop
      case Seccomp(v, _) => if v.None? then LeftLoop else EndOf(stops[1..])
      case OtherStop => EndOf(stops[1..])
  }

  /** Stops that the loop goes on after. */
  ghost predicate Survived(stops: seq<Stop>) {
    forall k :: 0 <= k < |stops| ==> stops[k].OtherStop? || (stops[k].Seccomp? && stops[k].violation.Some?)
  }

  lemma {:induction false} RunJoins(a: seq<Stop>, b: seq<Stop>)
    requires Survived(a)
    ensures Logged(a + b) == Logged(a) + Logged(b) && EndOf(a + b) == EndOf(b)
    decreases |a|
  {
    if a == [] {
      assert a + b == b;
    } else {
      RunJoins(a[1..], b);
      assert (a + b)[1..] == a[1..] + b;
      assert Survived([a[0]]);
    }
  }

  /** What one stop does to a run, wherever it comes: a violation that could be written is logged in its place, and
      nothing is logged behind a stop that ends the loop. */
  lemma {:induction false} StopDecides(a: seq<Stop>, stop: Stop, b: seq<Stop>)
    requires Survived(a)
    ensures stop.OtherStop? ==> Logged(a + [stop] + b) == Logged(a) + Logged(b) && EndOf(a + [stop] + b) == EndOf(b)
    ensures stop.Seccomp? && stop.violation.Some? ==>
              && Logged(a + [stop] + b) == Logged(a) + (if stop.opens then [stop.violation.value] else []) + Logged(b)
              && EndOf(a + [stop] + b) == EndOf(b)
    ensures stop.TraceeGone? || (stop.Seccomp? && stop.violation.None?) ==>
              Logged(a + [stop] + b) == Logged(a) && EndOf(a + [stop] + b) == LeftLoop
    ensures stop.ContinueFailed? ==> Logged(a + [stop] + b) == Logged(a) && EndOf(a + [stop] + b) == Exited
    ensures Logged([]) == [] && EndOf([]) == StillRunning
  {
    var rest := [stop] + b;
    Regroup(a, [stop], b);
    RunJoins(a, rest);
    assert rest[1..] == b;
  }

  ghost function Records(toDouble: u64 -> real, vs: seq<Violation>): seq<Json> {
    seq(|vs|, k requires 0 <= k < |vs| => Record(toDouble, vs[k]))
  }

  ghost function RecordTexts(lib: Libc, toDouble: u64 -> real, vs: seq<Violation>): seq<seq<byte>> {
    Texts(lib, LOG_STYLE, Records(toDouble, vs))
  }

  /** What a run adds to the log file. */
  ghost function RunText(lib: Libc, toDouble: u64 -> real, stops: seq<Stop>, closeOpens: bool): seq<byte> {
    FileText(RecordTexts(lib, toDouble, Logged(stops)), EndOf(stops) == LeftLoop && closeOpens)
  }

  lemma TextsNext(lib: Libc, st: Style, items: seq<Json>, item: Json)
    ensures Texts(lib, st, items + [item]) == Texts(lib, st, items) + [Print(lib, st, item, 0)]
  {
  }

  lemma RecordsNext(toDouble: u64 -> real, vs: seq<Violation>, v: Violation)
    ensures Records(toDouble, vs + [v]) == Records(toDouble, vs) + [Record(toDouble, v)]
  {
  }

  lemma RecordTextsNext(lib: Libc, toDouble: u64 -> real, vs: seq<Violation>, v: Violation)
    ensures RecordTexts(lib, toDouble, vs + [v]) == RecordTexts(lib, toDouble, vs) + [RecordText(lib, toDouble, v)]
  {
    RecordsNext(toDouble, vs, v);
    TextsNext(lib, LOG_STYLE, Records(toDouble, vs), Record(toDouble, v));
  }

  lemma OneMoreText(lib: Libc, toDouble: u64 -> real, vs: seq<Violation>, v: Violation)
    ensures LogText(RecordTexts(lib, toDouble, vs + [v]))
            == LogText(RecordTexts(lib, toDouble, vs)) + Entry(vs == [], RecordText(lib, toDouble, v))
  {
    var texts, text := RecordTexts(lib, toDouble, vs), RecordText(lib, toDouble, v);
    RecordTextsNext(lib, toDouble, vs, v);
    assert |texts| == |vs|;
    LogTextNext(texts, text);
  }

  /** What the log file holds while the array is open. */
  ghost function OpenLog(lib: Libc, toDouble: u64 -> real, start: seq<byte>, vs: seq<Violation>): seq<byte> {
    start + LogText(RecordTexts(lib, toDouble, vs))
  }

  lemma OpenLogNext(lib: Libc, toDouble: u64 -> real, start: seq<byte>, vs: seq<Violation>, v: Violation)
    ensures OpenLog(lib, toDouble, start, vs + [v])
            == OpenLog(lib, toDouble, start, vs) + Entry(vs == [], RecordText(lib, toDouble, v))
  {
    OneMoreText(lib, toDouble, vs, v);
    Regroup(start, LogText(RecordTexts(lib, toDouble, vs)), Entry(vs == [], RecordText(lib, toDouble, v)));
  }

  /** One log call of the loop, with `vs` logged before. */
  method LogOne(hash: CString -> nat, lib: Libc, toDouble: u64 -> real, file: LogFile?, ghost start: seq<byte>,
                ghost vs: seq<Violation>, v: Violation, opens: bool, firstInArray: bool) returns (stillFirst: bool)
    requires file != null ==> firstInArray == (vs == []) && file.contents == OpenLog(lib, toDouble, start, vs)
    modifies file
    ensures file != null ==> stillFirst == (firstInArray && !opens)
    ensures file != null && opens ==> file.contents == OpenLog(lib, toDouble, start, vs + [v])
    ensures file != null && !opens ==> file.contents == OpenLog(lib, toDouble, start, vs)
  {
    ghost var before := OpenLog(lib, toDouble, start, vs);
    OpenLogNext(lib, toDouble, start, vs, v);
    var status;
    status, stillFirst := LogSeccompViolation(hash, lib, toDouble, file, v, opens, firstInArray);
    assert before + [] == before;
  }

  /** The loop has come to stop `i`, with `vs` logged so far. */
  ghost predicate Reached(stops: seq<Stop>, i: nat, vs: seq<Violation>) {
    i <= |stops| && Logged(stops) == vs + Logged(stops[i..]) && EndOf(stops) == EndOf(stops[i..])
  }

  lemma AllReached(stops: seq<Stop>, vs: seq<Violation>)
    requires Reached(stops, |stops|, vs)
    ensures Logged(stops) == vs && EndOf(stops) == StillRunning
  {
    assert stops[|stops|..] == [] && vs + [] == vs;
  }

  /** How the loop goes on at stop `i`. */
  lemma ReachedNext(stops: seq<Stop>, i: nat, vs: seq<Violation>)
    requires i < |stops| && Reached(stops, i, vs)
    ensures stops[i].OtherStop? ==> Reached(stops, i + 1, vs)
    ensures stops[i].Seccomp? && stops[i].violation.Some? ==>
              Reached(stops, i + 1, if stops[i].opens then vs + [stops[i].violation.value] else vs)
    ensures stops[i].TraceeGone? || (stops[i].Seccomp? && stops[i].violation.None?) ==>
              Logged(stops) == vs && EndOf(stops) == LeftLoop
    ensures stops[i].ContinueFailed? ==> Logged(stops) == vs && EndOf(stops) == Exited
  {
    assert stops[i..][1..] == stops[i + 1..];
    assert vs + [] == vs;
    if stops[i].Seccomp? && stops[i].violation.Some? {
      Regroup(vs, if stops[i].opens then [stops[i].violation.value] else [], Logged(stops[i + 1..]));
    }
  }

  /** What the file must hold at the end, in terms of what the loop wrote. */
  lemma RunEnds(lib: Libc, toDouble: u64 -> real, stops: seq<Stop>, closeOpens: bool, start: seq<byte>)
    ensures start + RunText(lib, toDouble, stops, closeOpens)
            == OpenLog(lib, toDouble, start, Logged(stops))
               + Appended(EndOf(stops) == LeftLoop && closeOpens, [CLOSE_BRACKET, NEWLINE])
  {
    Regroup(start, LogText(RecordTexts(lib, toDouble, Logged(stops))),
            Appended(EndOf(stops) == LeftLoop && closeOpens, [CLOSE_BRACKET, NEWLINE]));
  }

  /** The loop proper: `vs` was logged, and the array is still open. */
  method WatchStops(hash: CString -> nat, lib: Libc, toDouble: u64 -> real, file: LogFile?, stops: seq<Stop>,
                    ghost start: seq<byte>) returns (ending: Ending)
    requires file != null ==> file.contents == start
    modifies file
    ensures ending == EndOf(stops)
    ensures file != null ==> file.contents == OpenLog(lib, toDouble, start, Logged(stops))
  {
    var firstInArray := true;
    ghost var vs: seq<Violation> := [];
    var i := 0;
    NothingLogged(lib, toDouble, stops, start);
    while i < |stops|
      invariant Reached(stops, i, vs)
      invariant file != null ==> firstInArray == (vs == []) && file.contents == OpenLog(lib, toDouble, start, vs)
    {
      ReachedNext(stops, i, vs);
      match stops[i] {
        case ContinueFailed =>
          return Exited;
        case TraceeGone =>
          return LeftLoop;
        case Seccomp(violation, opens) =>
          if violation.None? {
            return LeftLoop;
          }
          firstInArray := LogOne(hash, lib, toDouble, file, start, vs, violation.value, opens, firstInArray);
          vs := if opens then vs + [violation.value] else vs;
        case OtherStop =>
      }
      i := i + 1;
    }
    AllReached(stops, vs);
    return StillRunning;
  }

  lemma NothingLogged(lib: Libc, toDouble: u64 -> real, stops: seq<Stop>, start: seq<byte>)
    ensures Reached(stops, 0, [])
    ensures OpenLog(lib, toDouble, start, []) == start
  {
    assert stops[0..] == stops;
    assert RecordTexts(lib, toDouble, []) == [];
    assert LogText([]) == [];
  }

  /** `observer_loop`: the stops it sees decide what is logged and how it ends. */
  method ObserverLoop(hash: CString -> nat, lib: Libc, toDouble: u64 -> real, file: LogFile?, stops: seq<Stop>,
                      closeOpens: bool) returns (ending: Ending)
    modifies file
    ensures ending == EndOf(stops)
    ensures file != null ==> file.contents == old(file.contents) + RunText(lib, toDouble, stops, closeOpens)
  {
    ghost var start := if file == null then [] else file.contents;
    ending := WatchStops(hash, lib, toDouble, file, stops, start);
    RunEnds(lib, toDouble, stops, closeOpens, start);
    if ending == LeftLoop {
      var closed := LoggerClose(file, closeOpens);
    } else {
      assert forall s: seq<byte> :: s + Appended(false, [CLOSE_BRACKET, NEWLINE]) == s;
    }
  }

  lemma RecordsLoggable(lib: Libc, toDouble: u64 -> real, vs: seq<Violation>)
    requires forall k :: 0 <= k < |vs| ==> NumbersSurvive(lib, toDouble, vs[k])
    ensures Loggable(lib, Records(toDouble, vs))
  {
    forall k | 0 <= k < |vs|
      ensures var r := Record(toDouble, vs[k]); Sound(lib, r) && Height(r) < MAX_NESTING && !r.Number?
    {
      RecordReadable(lib, toDouble, vs[k]);
      ValidIsSound(lib, Record(toDouble, vs[k]));
    }
  }

  /** A log file that was empty before the run parses to the array of exactly the logged records, in order, if and only
      if the loop was left by `break`, the closing call could open the file, and at least one record was logged. */
  lemma RunReadsBack(lib: Libc, toDouble: u64 -> real, stops: seq<Stop>, closeOpens: bool)
    requires forall k :: 0 <= k < |Logged(stops)| ==> NumbersSurvive(lib, toDouble, Logged(stops)[k])
    ensures var s := RunText(lib, toDouble, stops, closeOpens) + [0];
            && Terminated(s)
            && match ParseString(lib, s)
               case Some(p) =>
                 && p.value == Array(Records(toDouble, Logged(stops))) && p.next + 2 == |s|
                 && EndOf(stops) == LeftLoop && closeOpens && Logged(stops) != []
               case None => !(EndOf(stops) == LeftLoop && closeOpens && Logged(stops) != [])
  {
    var vs, closed := Logged(stops), EndOf(stops) == LeftLoop && closeOpens;
    var items, texts := Records(toDouble, vs), RecordTexts(lib, toDouble, vs);
    RecordsLoggable(lib, toDouble, vs);
    FileReadsBack(lib, LOG_STYLE, items, texts, closed, FileText(texts, closed) + [0], |LogText(texts)|);
  }

  /** At every moment of a run that has logged something, closing the file would make it whole. */
  lemma {:induction false} AlwaysCompletable(lib: Libc, toDouble: u64 -> real, stops: seq<Stop>, n: nat)
    requires n <= |stops| && EndOf(stops[..n]) == StillRunning && Logged(stops[..n]) != []
    requires forall k :: 0 <= k < |Logged(stops[..n])| ==> NumbersSurvive(lib, toDouble, Logged(stops[..n])[k])
    ensures var s := RunText(lib, toDouble, stops[..n] + [TraceeGone], true) + [0];
            && Terminated(s) && ParseString(lib, s).Some?
            && ParseString(lib, s).value.value == Array(Records(toDouble, Logged(stops[..n])))
  {
    GoneNext(stops[..n]);
    RunReadsBack(lib, toDouble, stops[..n] + [TraceeGone], true);
  }

  lemma {:induction false} GoneNext(stops: seq<Stop>)
    requires EndOf(stops) == StillRunning
    ensures Logged(stops + [TraceeGone]) == Logged(stops) && EndOf(stops + [TraceeGone]) == LeftLoop
    decreases |stops|
  {
    if stops == [] {
      assert stops + [TraceeGone] == [TraceeGone];
    } else {
      GoneNext(stops[1..]);
      assert (stops + [TraceeGone])[1..] == stops[1..] + [TraceeGone];
    }
  }
}
