/** The tokenizer of src/main.c:171-231, which cuts a command line into arguments at white space. */
module SplitCommand {
  import opened Bytes
  import opened Options
  import opened Vectors

  const MAX_COMMAND_LEN: nat := 1024

  ghost predicate NoSpace(t: seq<byte>) {
    forall k :: 0 <= k < |t| ==> !IsSpace(t[k])
  }

  /** How many bytes at the head of `t` are not white space. */
  function RunLength(t: seq<byte>): (n: nat)
    ensures n <= |t| && NoSpace(t[..n])
    ensures n < |t| ==> IsSpace(t[n])
  {
    if t == [] || IsSpace(t[0]) then 0
    else
      var n := 1 + RunLength(t[1..]);
      assert t[..n] == [t[0]] + t[1..][..n - 1];
      n
  }

  /** The maximal runs of bytes that are not white space, in order. */
  function Words(t: seq<byte>): (ws: seq<seq<byte>>)
    decreases |t|
  {
    if t == [] then []
    else if IsSpace(t[0]) then Words(t[1..])
    else [t[..RunLength(t)]] + Words(t[RunLength(t)..])
  }

  /** Words separated by gaps: `gaps[0]` in front, `gaps[k + 1]` behind word `k`. */
  ghost function Weave(words: seq<seq<byte>>, gaps: seq<seq<byte>>): seq<byte>
    requires |gaps| == |words| + 1
  {
    if words == [] then gaps[0] else gaps[0] + (words[0] + Weave(words[1..], gaps[1..]))
  }

  ghost predicate AreWords(words: seq<seq<byte>>) {
    forall k :: 0 <= k < |words| ==> words[k] != [] && NoSpace(words[k])
  }

  /** White space, and some of it wherever two words meet. */
  ghost predicate AreGaps(gaps: seq<seq<byte>>) {
    && (forall k :: 0 <= k < |gaps| ==> AllSpace(gaps[k]))
    && (forall k :: 0 < k < |gaps| - 1 ==> gaps[k] != [])
  }

  lemma {:induction false} GapSkipped(gap: seq<byte>, t: seq<byte>)
    requires AllSpace(gap)
    ensures Words(gap + t) == Words(t)
    decreases |gap|
  {
    if gap == [] {
      assert gap + t == t;
    } else {
      assert (gap + t)[1..] == gap[1..] + t;
      GapSkipped(gap[1..], t);
    }
  }

  lemma {:induction false} RunIs(word: seq<byte>, t: seq<byte>)
    requires NoSpace(word) && (t != [] ==> IsSpace(t[0]))
    ensures RunLength(word + t) == |word|
    decreases |word|
  {
    if word == [] {
      assert word + t == t;
    } else {
      assert (word + t)[1..] == word[1..] + t;
      RunIs(word[1..], t);
    }
  }

  lemma WordFirst(word: seq<byte>, t: seq<byte>)
    requires word != [] && NoSpace(word) && (t != [] ==> IsSpace(t[0]))
    ensures Words(word + t) == [word] + Words(t)
  {
    RunIs(word, t);
    assert (word + t)[..|word|] == word && (word + t)[|word|..] == t;
  }

  lemma WeaveStarts(words: seq<seq<byte>>, gaps: seq<seq<byte>>)
    requires |gaps| == |words| + 1 && AreGaps(gaps) && (words != [] ==> gaps[0] != [])
    ensures var t := Weave(words, gaps); t != [] ==> IsSpace(t[0])
  {
  }

  /** Joining words by any white space and splitting gives the words back. */
  lemma {:induction false} SplitAfterWeave(words: seq<seq<byte>>, gaps: seq<seq<byte>>)
    requires |gaps| == |words| + 1 && AreWords(words) && AreGaps(gaps)
    ensures Words(Weave(words, gaps)) == words
    decreases |words|
  {
    if words == [] {
      GapSkipped(gaps[0], []);
      assert gaps[0] + [] == gaps[0];
    } else {
      var rest := Weave(words[1..], gaps[1..]);
      assert AreGaps(gaps[1..]) && AreWords(words[1..]);
      WeaveStarts(words[1..], gaps[1..]);
      GapSkipped(gaps[0], words[0] + rest);
      WordFirst(words[0], rest);
      SplitAfterWeave(words[1..], gaps[1..]);
    }
  }

  /** Nothing but white space is lost: every text is its words woven with suitable gaps. */
  lemma {:induction false} WeaveAfterSplit(t: seq<byte>) returns (gaps: seq<seq<byte>>)
    ensures |gaps| == |Words(t)| + 1 && AreWords(Words(t)) && AreGaps(gaps) && t == Weave(Words(t), gaps)
    ensures t != [] && !IsSpace(t[0]) ==> gaps[0] == []
    ensures t != [] && IsSpace(t[0]) ==> gaps[0] != []
    decreases |t|
  {
    if t == [] {
      gaps := [[]];
    } else if IsSpace(t[0]) {
      var rest := WeaveAfterSplit(t[1..]);
      gaps := [[t[0]] + rest[0]] + rest[1..];
      assert t == [t[0]] + t[1..];
      assert gaps[1..] == rest[1..];
    } else {
      var n := RunLength(t);
      assert n > 0;
      var rest := WeaveAfterSplit(t[n..]);
      gaps := [[]] + rest;
      assert gaps[1..] == rest && t == t[..n] + t[n..];
      assert Words(t)[1..] == Words(t[n..]);
    }
  }

  /** What `split_command` answers; the last two end the program. */
  datatype Split = Argv(argv: seq<Option<seq<byte>>>) | TooLong | EmptyCommand

  /** The arguments in order, and the closing NULL. */
  ghost predicate IsArgv(argv: seq<Option<seq<byte>>>, words: seq<seq<byte>>) {
    && |argv| == |words| + 1 && argv[|words|] == None
    && forall k :: 0 <= k < |words| ==> argv[k] == Some(words[k])
  }

  /** Where the scan stands: at a space or the end, or inside a word that began at `start`. */
  ghost predicate At(t: seq<byte>, args: seq<seq<byte>>, start: nat, end: nat) {
    && start <= end <= |t|
    && if end == |t| || IsSpace(t[end]) then Words(t) == args + Words(t[end..])
       else Words(t) == args + Words(t[start..]) && NoSpace(t[start..end])
  }

  /** A word ends at `end`. */
  lemma WordEnds(t: seq<byte>, args: seq<seq<byte>>, start: nat, end: nat)
    requires At(t, args, start, end) && end < |t| && !IsSpace(t[end])
    requires end + 1 == |t| || IsSpace(t[end + 1])
    ensures At(t, args + [t[start..end + 1]], start, end + 1)
  {
    var word := t[start..end + 1];
    assert word == t[start..end] + [t[end]];
    assert t[start..] == word + t[end + 1..];
    WordFirst(word, t[end + 1..]);
    Regroup(args, [word], Words(t[end + 1..]));
  }

  lemma WordGoesOn(t: seq<byte>, args: seq<seq<byte>>, start: nat, end: nat)
    requires At(t, args, start, end) && end + 1 < |t| && !IsSpace(t[end]) && !IsSpace(t[end + 1])
    ensures At(t, args, start, end + 1)
  {
    assert t[start..end + 1] == t[start..end] + [t[end]];
  }

  lemma SpacePassed(t: seq<byte>, args: seq<seq<byte>>, start: nat, end: nat)
    requires At(t, args, start, end) && end < |t| && IsSpace(t[end])
    ensures At(t, args, end + 1, end + 1)
    ensures end + 1 < |t| && IsSpace(t[end + 1]) ==> At(t, args, start, end + 1)
  {
    assert t[end..][1..] == t[end + 1..];
  }

  lemma InText(cmd: seq<byte>, t: seq<byte>, start: nat, end: nat)
    requires Terminated(cmd) && t == cmd[..|cmd| - 1] && 0 !in t && start <= end < |cmd| && cmd[end] != 0
    ensures end < |t| && cmd[end] == t[end] && cmd[start..end + 1] == t[start..end + 1]
    ensures cmd[end + 1] == 0 <==> end + 1 == |t|
    ensures end + 1 < |t| ==> cmd[end + 1] == t[end + 1]
  {
    assert end + 1 < |t| ==> t[end + 1] in t;
  }

  /** `split_command` on a C string: its words, unless it is longer than the limit or has none. */
  method SplitCommand(cmd: seq<byte>) returns (r: Split)
    requires Terminated(cmd) && 0 !in cmd[..|cmd| - 1]
    ensures r.TooLong? <==> |cmd| - 1 > 1024
    ensures r.EmptyCommand? <==> |cmd| - 1 <= 1024 && Words(cmd[..|cmd| - 1]) == []
    ensures r.Argv? ==> IsArgv(r.argv, Words(cmd[..|cmd| - 1]))
  {
    var args := new Vector<seq<byte>>(4);
    ghost var t := cmd[..|cmd| - 1];
    if |cmd| > MAX_COMMAND_LEN + 1 {
      return TooLong;
    }
    var start, end := 0, 0;
    assert t[0..] == t;
    while cmd[end] != 0
      invariant end < |cmd| && args.Valid() && fresh(args) && fresh(args.data)
      invariant At(t, args.Contents(), start, end)
      decreases |cmd| - end
    {
      InText(cmd, t, start, end);
      if !IsSpace(cmd[end]) {
        if IsSpace(cmd[end + 1]) || cmd[end + 1] == 0 {
          WordEnds(t, args.Contents(), start, end);
          args.PushBack(cmd[start..end + 1]);
          end := end + 1;
          continue;
        }
        WordGoesOn(t, args.Contents(), start, end);
      } else {
        SpacePassed(t, args.Contents(), start, end);
        if !IsSpace(cmd[end + 1]) {
          end := end + 1;
          start := end;
          continue;
        }
      }
      end := end + 1;
    }
    assert t[end..] == [] && args.Contents() + [] == args.Contents();
    if args.size == 0 {
      return EmptyCommand;
    }
    var argv := CopyArgs(args);
    return Argv(argv[..]);
  }

  /** The argument array, with a NULL behind the last argument. */
  method CopyArgs(args: Vector<seq<byte>>) returns (argv: array<Option<seq<byte>>>)
    requires args.Valid()
    ensures fresh(argv) && IsArgv(argv[..], args.Contents())
  {
    argv := new Option<seq<byte>>[args.size + 1](_ => None);
    var i := 0;
    while i < args.size
      invariant i <= args.size && argv[args.size] == None
      invariant forall k :: 0 <= k < i ==> argv[k] == Some(args.Contents()[k])
    {
      var arg := args.Get(i);
      argv[i] := Some(arg);
      i := i + 1;
    }
  }

  /** A command line written as words between white space, up to 1024 bytes long: the argument array holds these words
      in this order, and a NULL behind them. */
  method SplitWoven(ghost words: seq<seq<byte>>, ghost gaps: seq<seq<byte>>, cmd: seq<byte>) returns (r: Split)
    requires |gaps| == |words| + 1 && AreWords(words) && AreGaps(gaps) && words != []
    requires cmd == Weave(words, gaps) + [0] && 0 !in Weave(words, gaps) && |Weave(words, gaps)| <= 1024
    ensures r.Argv? && |r.argv| == |words| + 1 && r.argv[|words|] == None
    ensures forall k :: 0 <= k < |words| ==> r.argv[k] == Some(words[k])
  {
    assert cmd[..|cmd| - 1] == Weave(words, gaps);
    SplitAfterWeave(words, gaps);
    r := SplitCommand(cmd);
  }
}
