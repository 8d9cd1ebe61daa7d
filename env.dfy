/**
 * The line processor of env.go, `deserAndSetEnvironment`: it carves the file
 * contents into lines, skips blank ones, splits every other line at its first
 * `=` and assigns the name to the value in the environment, stopping at the
 * first line that has content but no `=`.
 *
 * The specification is a pure pipeline: `Lines` cuts the input the way the
 * loop does, `Classify` decides what the loop does with one line, and `Run`
 * folds over the lines. `DeserAndSetEnvironment` is the loop itself, proved to
 * make exactly the assignments `Parse` lists and to return its error.
 */
module Env {
  import opened Wrappers
  import opened Scanner
  import opened Sink
  import opened Seqs

  /** The separator between a name and its value. */
  const EQ: byte := 61

  /** One line as the loop carves it; `eof` marks a remainder with no line feed. */
  datatype Line = Line(text: seq<byte>, eof: bool)

  /** Why processing the environment file failed. */
  datatype EnvError =
    /** The file could not be opened or read. */
    | FileUnavailable
    /** Line `lineNo` (1-based) has content but no `=`. */
    | MissingSeparator(lineNo: nat, inner: ScanError)
    /** The value of `name` has no line terminator after it (cannot happen, see `ParseNeverValueUnreadable`). */
    | ValueUnreadable(name: seq<byte>, inner: ScanError)

  // ---------------------------------------------------------------------------
  // Cutting the input into lines

  /**
   * The line one iteration takes off the front of `data`: up to and including
   * the first terminator, or all of `data` when it holds no line feed.
   */
  function NextLine(data: seq<byte>): (l: Line)
    requires data != []
    ensures 0 < |l.text| <= |data| && l.text == data[..|l.text|]
    ensures l.eof <==> NL !in data
    ensures l.eof ==> l.text == data
    ensures !l.eof ==> FirstAt(data, NL, |l.text| - 1)
  {
    match UntilNewline(data, true)
    case Ok(line) => Line(line, false)
    case Err(_) => Line(data, true)
  }

  /** The successive lines the loop consumes from `data`. */
  function Lines(data: seq<byte>): seq<Line>
    decreases |data|
  {
    if data == [] then []
    else
      var l := NextLine(data);
      if l.eof then [l] else [l] + Lines(data[|l.text|..])
  }

  /** The bytes of `ls`, one line after another. */
  function Concat(ls: seq<Line>): seq<byte>
  {
    if ls == [] then [] else ls[0].text + Concat(ls[1..])
  }

  /**
   * A line is non-empty; a terminated line holds exactly one line feed, its
   * last byte, and an unterminated one holds none.
   */
  predicate WellFormed(l: Line)
  {
    && |l.text| > 0
    && if l.eof then NL !in l.text else FirstAt(l.text, NL, |l.text| - 1)
  }

  /** Well-formed lines of which only the last may be unterminated. */
  predicate WellFormedLines(ls: seq<Line>)
  {
    && (forall i | 0 <= i < |ls| :: WellFormed(ls[i]))
    && (forall i | 0 <= i < |ls| - 1 :: !ls[i].eof)
  }

  /** True of bytes that are empty or end in a line feed: whole lines, with nothing after them. */
  predicate WholeLines(s: seq<byte>)
  {
    s == [] || s[|s| - 1] == NL
  }

  /** The line taken by one iteration is well formed. */
  lemma NextLineWellFormed(data: seq<byte>)
    requires data != []
    ensures WellFormed(NextLine(data))
  {
    var l := NextLine(data);
    if !l.eof {
      assert l.text[..|l.text| - 1] == data[..|l.text| - 1];
    }
  }

  /** The bytes of a line followed by more lines. */
  lemma ConcatCons(l: Line, ls: seq<Line>)
    ensures Concat([l] + ls) == l.text + Concat(ls)
  {
    assert ([l] + ls)[1..] == ls;
  }

  /** A well-formed line in front of well-formed lines, itself terminated unless it is alone. */
  lemma WellFormedCons(l: Line, ls: seq<Line>)
    requires WellFormed(l) && WellFormedLines(ls)
    requires ls == [] || !l.eof
    ensures WellFormedLines([l] + ls)
  {
    assert forall i | 1 <= i < |ls| + 1 :: ([l] + ls)[i] == ls[i - 1];
  }

  /**
   * The lines partition the input: they are well formed, each consumes at
   * least one byte, and together they are exactly the input, in order.
   */
  lemma {:induction false} LinesPartition(data: seq<byte>)
    ensures Concat(Lines(data)) == data
    ensures WellFormedLines(Lines(data))
    decreases |data|
  {
    if data != [] {
      var l := NextLine(data);
      NextLineWellFormed(data);
      if l.eof {
        assert Lines(data) == [l];
        ConcatCons(l, []);
        AppendNil([l]);
        AppendNil(l.text);
        WellFormedCons(l, []);
      } else {
        var rest := data[|l.text|..];
        LinesPartition(rest);
        LinesUnfold(data);
        ConcatCons(l, Lines(rest));
        WellFormedCons(l, Lines(rest));
        SplitJoin(data, |l.text|);
      }
    }
  }

  /** Bytes after the first line feed do not change the line carved before it. */
  lemma NextLineAppend(a: seq<byte>, b: seq<byte>)
    requires NL in a
    ensures NextLine(a + b) == NextLine(a)
  {
    var k := |NextLine(a).text| - 1;
    assert (a + b)[..k] == a[..k];
    UntilNewlineAt(a + b, k, true);
    UntilNewlineAt(a, k, true);
    assert (a + b)[..k + 1] == a[..k + 1];
  }

  /** A buffer holding a line feed is its first line followed by the lines after it. */
  lemma LinesUnfold(data: seq<byte>)
    requires NL in data
    ensures Lines(data) == [NextLine(data)] + Lines(data[|NextLine(data).text|..])
  {
  }

  /** Appending to a buffer that holds a line feed leaves its first line in place. */
  lemma LinesAppendStep(a: seq<byte>, b: seq<byte>)
    requires NL in a
    ensures Lines(a + b) == [NextLine(a)] + Lines(a[|NextLine(a).text|..] + b)
  {
    NextLineAppend(a, b);
    LinesUnfold(a + b);
    DropAppend(a, b, |NextLine(a).text|);
  }

  /** What is left after the first line of a buffer ending in a line feed still ends in one. */
  lemma RestEndsInNewline(a: seq<byte>)
    requires a != [] && a[|a| - 1] == NL
    ensures NL in a
    ensures WholeLines(a[|NextLine(a).text|..])
  {
    assert a[|a| - 1] in a;
  }

  /** Lines never straddle a line feed, so cutting after one cuts the line list. */
  lemma {:induction false} LinesAppend(a: seq<byte>, b: seq<byte>)
    requires WholeLines(a)
    ensures Lines(a + b) == Lines(a) + Lines(b)
    decreases |a|
  {
    if a == [] {
      assert a + b == b;
    } else {
      RestEndsInNewline(a);
      var l := NextLine(a);
      var rest := a[|l.text|..];
      LinesAppendStep(a, b);
      LinesUnfold(a);
      LinesAppend(rest, b);
      ConsAppend(Lines(a + b), Lines(a), Lines(rest + b), Lines(rest), Lines(b), l);
    }
  }

  /** A prefix holding no line feed and ending in `\n` or `\r\n` is one whole terminated line. */
  lemma TerminatedLine(text: seq<byte>)
    requires |text| > 0 && FirstAt(text, NL, |text| - 1)
    ensures Lines(text) == [Line(text, false)]
  {
    UntilNewlineAt(text, |text| - 1, true);
    assert text[..|text|] == text;
    assert text[|text|..] == [];
  }

  /** A remainder without a line feed is one unterminated line. */
  lemma FinalLine(text: seq<byte>)
    requires |text| > 0 && NL !in text
    ensures Lines(text) == [Line(text, true)]
  {
  }

  /**
   * The loop's line counter is 1 plus the number of line feeds before the
   * line: the `k`-th line (from 0) starts after exactly `k` line feeds.
   */
  lemma {:induction false} NewlinesBefore(ls: seq<Line>, k: nat)
    requires WellFormedLines(ls)
    requires k < |ls|
    ensures multiset(Concat(ls[..k]))[NL] == k
  {
    if k > 0 {
      var l := ls[0];
      var t := l.text;
      assert !l.eof;
      assert t == t[..|t| - 1] + [NL];
      assert multiset(t)[NL] == 1;
      assert ls[..k][1..] == ls[1..][..k - 1];
      assert WellFormedLines(ls[1..]) by {
        forall i | 0 <= i < |ls[1..]| ensures WellFormed(ls[1..][i]) {
          assert ls[1..][i] == ls[i + 1];
        }
      }
      NewlinesBefore(ls[1..], k - 1);
      assert Concat(ls[..k]) == t + Concat(ls[1..][..k - 1]);
    } else {
      assert ls[..k] == [];
    }
  }

  /** `Concat` distributes over a split of the line list. */
  lemma {:induction false} ConcatSplit(ls: seq<Line>, k: nat)
    requires k <= |ls|
    ensures Concat(ls[..k]) + Concat(ls[k..]) == Concat(ls)
  {
    if k > 0 {
      assert ls[..k][1..] == ls[1..][..k - 1];
      assert ls[k..] == ls[1..][k - 1..];
      ConcatSplit(ls[1..], k - 1);
    } else {
      assert ls[..k] == [];
      assert ls[k..] == ls;
    }
  }

  // ---------------------------------------------------------------------------
  // What the loop does with one line

  /** What one iteration decides for a line. */
  datatype Entry =
    | Blank
    | Assign(name: seq<byte>, value: seq<byte>)
    | NoSeparator(inner: ScanError)
    | BadValue(name: seq<byte>, inner: ScanError)

  /**
   * The loop's blank-line test, which looks only at the length and first byte:
   * true of `\n` and `\r\n`, and also of any 1-byte or `\r`-led 2-byte remainder.
   */
  predicate LooksBlank(text: seq<byte>)
  {
    |text| == 1 || (|text| == 2 && text[0] == CR)
  }

  /**
   * The entry for a line. A line that is not blank is split at its first `=`;
   * the value stops before the terminator, or runs to the end of an
   * unterminated line.
   */
  function Classify(l: Line): (e: Entry)
    ensures e.Blank? <==> LooksBlank(l.text)
    ensures e.NoSeparator? <==> !LooksBlank(l.text) && EQ !in l.text
    ensures e.NoSeparator? ==> e.inner == DelimiterNotFound(EQ, None)
    ensures e.Assign? || e.BadValue? ==> EQ !in e.name
  {
    if LooksBlank(l.text) then Blank
    else
      match UntilByte(l.text, EQ, false)
      case Err(inner) => NoSeparator(inner)
      case Ok(name) =>
        var rest := l.text[|name| + 1..];
        if l.eof then Assign(name, rest)
        else
          match UntilNewline(rest, false)
          case Err(inner) => BadValue(name, inner)
          case Ok(value) => Assign(name, value)
  }

  /** The terminator bytes a line ends with: none, `\n` or `\r\n`. */
  function Terminator(l: Line): seq<byte>
  {
    if l.eof then []
    else if |l.text| >= 2 && l.text[|l.text| - 2] == CR then [CR, NL]
    else [NL]
  }

  /**
   * The lookahead on a terminated line cannot fail: the bytes after its first
   * `=` still end in a line feed. So no well-formed line is a `BadValue`.
   */
  lemma ClassifyNoBadValue(l: Line)
    requires WellFormed(l)
    ensures !Classify(l).BadValue?
  {
    if !l.eof && !LooksBlank(l.text) && EQ in l.text {
      var t := l.text;
      var name := UntilByte(t, EQ, false).value;
      var rest := t[|name| + 1..];
      assert |name| < |t| - 1;
      assert rest[|rest| - 1] == NL;
    }
  }

  /**
   * A line assigned from is its name, `=`, its value and its terminator:
   * the name holds no `=`, and the value holds no line feed.
   */
  lemma AssignShape(l: Line)
    requires WellFormed(l) && Classify(l).Assign?
    ensures l.text == Classify(l).name + [EQ] + Classify(l).value + Terminator(l)
    ensures EQ !in Classify(l).name && NL !in Classify(l).value
  {
    var t := l.text;
    var e := Classify(l);
    var k := |e.name|;
    assert FirstAt(t, EQ, k) && e.name == t[..k];
    SplitAtFirst(t, EQ, k);
    var rest := t[k + 1..];
    if l.eof {
      assert e.value == rest;
      JoinAssoc(t, e.name, [EQ], rest, e.value, Terminator(l));
    } else {
      TerminatedValue(t, k);
      assert e.value == UntilNewline(rest, false).value;
      JoinAssoc(t, e.name, [EQ], rest, e.value, Terminator(l));
    }
  }

  /** A sequence is the part before its first `c`, then `c`, then the rest. */
  lemma SplitAtFirst(t: seq<byte>, c: byte, k: nat)
    requires FirstAt(t, c, k)
    ensures t == t[..k] + [c] + t[k + 1..]
    ensures c !in t[..k]
  {
  }

  /**
   * After the first `=` at `k` of a terminated line, the value scan drops
   * exactly the terminator.
   */
  lemma TerminatedValue(t: seq<byte>, k: nat)
    requires |t| > 0 && FirstAt(t, NL, |t| - 1)
    requires FirstAt(t, EQ, k)
    ensures UntilNewline(t[k + 1..], false).Ok?
    ensures t[k + 1..] == UntilNewline(t[k + 1..], false).value + Terminator(Line(t, false))
  {
    TerminatorAfter(t, k);
    AfterFirst(t, k);
    TerminatedSplit(t[k + 1..]);
  }

  /** The terminator of a terminated line is that of the bytes after its first `=`. */
  lemma TerminatorAfter(t: seq<byte>, k: nat)
    requires |t| > 0 && FirstAt(t, NL, |t| - 1)
    requires FirstAt(t, EQ, k)
    ensures k < |t| - 1 && |t[k + 1..]| - 1 == |t| - k - 2
    ensures Terminator(Line(t, false)) == Terminator(Line(t[k + 1..], false))
  {
    if k < |t| - 2 {
      assert t[k + 1..][|t| - k - 3] == t[|t| - 2];
    }
  }

  /** Bytes ending at their only line feed are the exclusive newline scan and the terminator. */
  lemma TerminatedSplit(buf: seq<byte>)
    requires |buf| > 0 && FirstAt(buf, NL, |buf| - 1)
    ensures UntilNewline(buf, false).Ok?
    ensures buf == UntilNewline(buf, false).value + Terminator(Line(buf, false))
  {
    UntilNewlineSplit(buf, |buf| - 1);
    TakeAll(buf);
  }

  /** In a terminated line, the bytes after an earlier position still end at its only line feed. */
  lemma AfterFirst(t: seq<byte>, k: nat)
    requires |t| > 0 && FirstAt(t, NL, |t| - 1)
    requires k < |t| - 1
    ensures FirstAt(t[k + 1..], NL, |t| - k - 2)
  {
    var rest := t[k + 1..];
    forall i | 0 <= i < |rest| - 1 ensures rest[i] != NL {
      assert rest[i] == t[k + 1 + i];
    }
  }

  /** True of a name and value that a terminated line `name=value` carries back unchanged. */
  predicate Representable(name: seq<byte>, value: seq<byte>, crlf: bool)
  {
    && EQ !in name && NL !in name && NL !in value
    && (!crlf ==> value == [] || value[|value| - 1] != CR)
  }

  /** The terminator `\r\n` or `\n`. */
  function Newline(crlf: bool): seq<byte>
  {
    if crlf then [CR, NL] else [NL]
  }

  /**
   * Splitting a terminated line: the name is everything before the first `=`,
   * later `=` bytes stay in the value, and the terminator is dropped.
   */
  lemma SplitTerminated(name: seq<byte>, value: seq<byte>, crlf: bool)
    requires Representable(name, value, crlf)
    ensures Classify(Line(name + [EQ] + value + Newline(crlf), false)) == Assign(name, value)
  {
    var tail := value + Newline(crlf);
    AppendAssoc(name + [EQ], value, Newline(crlf));
    FirstAtJoin(name, EQ, tail);
    UntilByteAt(name + [EQ] + tail, EQ, |name|, false);
    NewlineValue(value, crlf);
    ClassifyTerminated(name + [EQ] + tail, name, tail, value);
  }

  /** The entry of a terminated line, from the results of its two scans. */
  lemma ClassifyTerminated(t: seq<byte>, name: seq<byte>, tail: seq<byte>, value: seq<byte>)
    requires !LooksBlank(t)
    requires UntilByte(t, EQ, false) == Ok(name)
    requires t[|name| + 1..] == tail
    requires UntilNewline(tail, false) == Ok(value)
    ensures Classify(Line(t, false)) == Assign(name, value)
  {
  }

  /** The exclusive newline scan of `value` followed by its terminator gives `value` back. */
  lemma NewlineValue(value: seq<byte>, crlf: bool)
    requires NL !in value
    requires !crlf ==> value == [] || value[|value| - 1] != CR
    ensures UntilNewline(value + Newline(crlf), false) == Ok(value)
  {
    if crlf {
      assert value + Newline(crlf) == (value + [CR]) + [NL] + [];
      FirstAtJoin(value + [CR], NL, []);
      UntilNewlineAt(value + Newline(crlf), |value| + 1, false);
    } else {
      assert value + Newline(crlf) == value + [NL] + [];
      FirstAtJoin(value, NL, []);
      UntilNewlineAt(value + Newline(crlf), |value|, false);
    }
  }

  /**
   * Splitting the final, unterminated line: the value runs to the end of the
   * input, unless the blank-line test drops the line (`=` alone, or `\r=`).
   */
  lemma SplitFinal(name: seq<byte>, value: seq<byte>)
    requires EQ !in name
    requires !LooksBlank(name + [EQ] + value)
    ensures Classify(Line(name + [EQ] + value, true)) == Assign(name, value)
  {
    FirstAtJoin(name, EQ, value);
    UntilByteAt(name + [EQ] + value, EQ, |name|, false);
  }

  // ---------------------------------------------------------------------------
  // The whole pass

  /** The assignments made, in order, and the error processing stopped with, if any. */
  datatype Outcome = Outcome(pairs: seq<Pair>, err: Option<EnvError>)

  /** `o` with the assignments `ps` made before it. */
  function Prepend(ps: seq<Pair>, o: Outcome): Outcome
  {
    Outcome(ps + o.pairs, o.err)
  }

  /** What processing does with the entry of line `lineNo`, given the outcome `rest` of the lines after it. */
  function Step(e: Entry, lineNo: nat, rest: Outcome): Outcome
  {
    match e
    case Blank => rest
    case Assign(name, value) => Prepend([(name, value)], rest)
    case NoSeparator(inner) => Outcome([], Some(MissingSeparator(lineNo, inner)))
    case BadValue(name, inner) => Outcome([], Some(ValueUnreadable(name, inner)))
  }

  /** Processing the entries `es`, the first of which is that of line number `lineNo`. */
  function Run(es: seq<Entry>, lineNo: nat): (o: Outcome)
    ensures |o.pairs| <= |es|
    ensures o.err.Some? && o.err.value.MissingSeparator? ==>
      lineNo <= o.err.value.lineNo < lineNo + |es|
  {
    if es == [] then Outcome([], None) else Step(es[0], lineNo, Run(es[1..], lineNo + 1))
  }

  /** The entry of every line of `data`, in order. */
  function Entries(data: seq<byte>): seq<Entry>
  {
    Map(Classify, Lines(data))
  }

  /** What processing the file contents `data` does, counting lines from 1. */
  function Parse(data: seq<byte>): Outcome
  {
    Run(Entries(data), 1)
  }

  /** Two runs of assignments prepended in turn. */
  lemma PrependTwice(ps: seq<Pair>, qs: seq<Pair>, o: Outcome)
    ensures Prepend(ps, Prepend(qs, o)) == Prepend(ps + qs, o)
  {
    AppendAssoc(ps, qs, o.pairs);
  }

  /** Processing that ends with no further assignments. */
  lemma Finished(whole: Outcome, ps: seq<Pair>, err: Option<EnvError>)
    requires whole == Prepend(ps, Outcome([], err))
    ensures whole == Outcome(ps, err)
  {
    AppendNil(ps);
  }

  /** Processing decides on the first entry, then goes on with the next line number. */
  lemma RunCons(e: Entry, es: seq<Entry>, lineNo: nat)
    ensures Run([e] + es, lineNo) == Step(e, lineNo, Run(es, lineNo + 1))
  {
    assert ([e] + es)[1..] == es;
  }

  /** Processing one entry. */
  lemma RunSingle(e: Entry, lineNo: nat)
    ensures Run([e], lineNo) == Step(e, lineNo, Outcome([], None))
  {
    RunCons(e, [], lineNo);
    AppendNil([e]);
  }

  /** An entry the loop gets past: a blank line, or an assignment. */
  predicate Accepted(e: Entry)
  {
    e.Blank? || e.Assign?
  }

  /** The assignments among `es`, in order. */
  function Assignments(es: seq<Entry>): seq<Pair>
  {
    if es == [] then []
    else (if es[0].Assign? then [(es[0].name, es[0].value)] else []) + Assignments(es[1..])
  }

  /** Entries that are all accepted make all their assignments and no error. */
  lemma {:induction false} RunAccepted(es: seq<Entry>, lineNo: nat)
    requires forall i | 0 <= i < |es| :: Accepted(es[i])
    ensures Run(es, lineNo) == Outcome(Assignments(es), None)
  {
    if es != [] {
      assert forall i | 0 <= i < |es[1..]| :: es[1..][i] == es[i + 1];
      RunAccepted(es[1..], lineNo + 1);
      assert Accepted(es[0]);
      AppendNil(Assignments(es[1..]));
    }
  }

  /**
   * The first entry without `=` stops processing with its own line number;
   * the entries before it have made their assignments and no later one makes one.
   */
  lemma {:induction false} RunRejected(es: seq<Entry>, lineNo: nat, k: nat)
    requires k < |es|
    requires forall i | 0 <= i < k :: Accepted(es[i])
    requires es[k].NoSeparator?
    ensures Run(es, lineNo) == Outcome(Assignments(es[..k]), Some(MissingSeparator(lineNo + k, es[k].inner)))
  {
    if k == 0 {
      assert es[..k] == [];
    } else {
      assert Accepted(es[0]);
      assert forall i | 0 <= i < k - 1 :: es[1..][i] == es[i + 1];
      assert es[1..][k - 1] == es[k];
      RunRejected(es[1..], lineNo + 1, k - 1);
      assert es[..k][1..] == es[1..][..k - 1];
      assert es[..k][0] == es[0];
      AppendNil(Assignments(es[1..][..k - 1]));
    }
  }

  /**
   * Without a `BadValue`, processing either accepts every entry or stops at
   * a `NoSeparator` entry all of whose predecessors are accepted.
   */
  lemma {:induction false} RunStop(es: seq<Entry>, lineNo: nat)
    requires forall i | 0 <= i < |es| :: !es[i].BadValue?
    ensures Run(es, lineNo).err.Some? ==> Run(es, lineNo).err.value.MissingSeparator?
    ensures Run(es, lineNo).err.None? <==> forall i | 0 <= i < |es| :: Accepted(es[i])
    ensures Run(es, lineNo).err.Some? ==>
      var k := Run(es, lineNo).err.value.lineNo - lineNo;
      k < |es| && es[k].NoSeparator? && forall i | 0 <= i < k :: Accepted(es[i])
  {
    if es != [] {
      assert !es[0].BadValue?;
      assert forall i | 0 <= i < |es[1..]| :: es[1..][i] == es[i + 1];
      RunStop(es[1..], lineNo + 1);
      if !Accepted(es[0]) {
        assert !(forall i | 0 <= i < |es| :: Accepted(es[i]));
      }
    }
  }

  /** Running two runs of entries in turn, the second numbered on from the first. */
  lemma {:induction false} RunAppend(a: seq<Entry>, b: seq<Entry>, lineNo: nat)
    ensures Run(a + b, lineNo) ==
      if Run(a, lineNo).err.Some? then Run(a, lineNo)
      else Prepend(Run(a, lineNo).pairs, Run(b, lineNo + |a|))
  {
    if a == [] {
      assert a + b == b;
      AppendNil(Run(b, lineNo).pairs);
    } else {
      assert (a + b)[0] == a[0];
      assert (a + b)[1..] == a[1..] + b;
      RunAppend(a[1..], b, lineNo + 1);
      var r := Run(a[1..], lineNo + 1);
      if r.err.None? && a[0].Assign? {
        PrependTwice([(a[0].name, a[0].value)], r.pairs, Run(b, lineNo + |a|));
      }
    }
  }

  /** Processing entries followed by one last entry. */
  lemma RunSnoc(es: seq<Entry>, e: Entry, lineNo: nat)
    ensures Run(es + [e], lineNo) ==
      if Run(es, lineNo).err.Some? then Run(es, lineNo)
      else Prepend(Run(es, lineNo).pairs, Step(e, lineNo + |es|, Outcome([], None)))
  {
    RunAppend(es, [e], lineNo);
    RunSingle(e, lineNo + |es|);
  }

  // ---------------------------------------------------------------------------
  // From lines to entries

  /** The entries of a buffer: its first line's, then those of the bytes after that line. */
  lemma EntriesUnfold(data: seq<byte>)
    requires |data| > 0
    ensures Entries(data) == [Classify(NextLine(data))] +
      (if NextLine(data).eof then [] else Entries(data[|NextLine(data).text|..]))
  {
    var l := NextLine(data);
    if l.eof {
      assert Lines(data) == [l];
      MapSingle(Classify, l);
      AppendNil([Classify(l)]);
    } else {
      LinesUnfold(data);
      MapCons(Classify, l, Lines(data[|l.text|..]));
    }
  }

  /**
   * One iteration's worth of processing: the first line's entry decides,
   * and the bytes after that line go on with the next line number.
   */
  lemma Advance(data: seq<byte>, lineNo: nat)
    requires |data| > 0
    ensures Run(Entries(data), lineNo) == Step(Classify(NextLine(data)), lineNo, After(data, lineNo))
  {
    var l := NextLine(data);
    EntriesUnfold(data);
    if l.eof {
      RunSingle(Classify(l), lineNo);
    } else {
      RunCons(Classify(l), Entries(data[|l.text|..]), lineNo);
    }
  }

  /** The outcome of the lines after the first line of `data`, numbered from `lineNo + 1`. */
  function After(data: seq<byte>, lineNo: nat): Outcome
    requires |data| > 0
  {
    var l := NextLine(data);
    if l.eof then Outcome([], None) else Run(Entries(data[|l.text|..]), lineNo + 1)
  }

  /** There is one entry per line, in the same order. */
  lemma EntriesIndex(data: seq<byte>, i: nat)
    requires i < |Lines(data)|
    ensures |Entries(data)| == |Lines(data)| && Entries(data)[i] == Classify(Lines(data)[i])
  {
    MapIndex(Classify, Lines(data), i);
  }

  /** The value lookahead never fails on a line the loop carves. */
  lemma EntriesNoBadValue(data: seq<byte>)
    ensures forall i | 0 <= i < |Entries(data)| :: !Entries(data)[i].BadValue?
  {
    LinesPartition(data);
    forall i | 0 <= i < |Entries(data)| ensures !Entries(data)[i].BadValue? {
      EntriesIndex(data, i);
      ClassifyNoBadValue(Lines(data)[i]);
    }
  }

  /** No input ever reaches the value-lookahead error: that branch is dead. */
  lemma ParseNeverValueUnreadable(data: seq<byte>)
    ensures Parse(data).err.Some? ==> Parse(data).err.value.MissingSeparator?
  {
    EntriesNoBadValue(data);
    RunStop(Entries(data), 1);
  }

  /**
   * Processing succeeds exactly when every line is blank or has an `=`, and
   * it then makes one assignment per non-blank line, in file order.
   */
  lemma ParseSucceeds(data: seq<byte>)
    ensures Parse(data).err.None? <==> forall i | 0 <= i < |Lines(data)| :: Accepted(Classify(Lines(data)[i]))
    ensures Parse(data).err.None? ==> Parse(data).pairs == Assignments(Entries(data))
  {
    var es := Entries(data);
    EntriesNoBadValue(data);
    RunStop(es, 1);
    forall i | 0 <= i < |Lines(data)| ensures es[i] == Classify(Lines(data)[i]) {
      EntriesIndex(data, i);
    }
    if Parse(data).err.None? {
      RunAccepted(es, 1);
    }
  }

  /**
   * A failure names the 1-based number of the first line with content but no
   * `=`, counting blank lines: that line follows exactly `n - 1` line feeds,
   * every earlier line is accepted and only their assignments were made.
   */
  lemma ParseMissingSeparator(data: seq<byte>, n: nat, inner: ScanError)
    requires Parse(data).err == Some(MissingSeparator(n, inner))
    ensures inner == DelimiterNotFound(EQ, None)
    ensures 1 <= n <= |Lines(data)|
    ensures !LooksBlank(Lines(data)[n - 1].text) && EQ !in Lines(data)[n - 1].text
    ensures forall i | 0 <= i < n - 1 :: Accepted(Classify(Lines(data)[i]))
    ensures Parse(data).pairs == Assignments(Entries(data)[..n - 1])
    ensures var start := |Concat(Lines(data)[..n - 1])|;
      start < |data| && multiset(data[..start])[NL] == n - 1
  {
    var ls := Lines(data);
    var es := Entries(data);
    EntriesNoBadValue(data);
    RunStop(es, 1);
    RunRejected(es, 1, n - 1);
    EntriesIndex(data, n - 1);
    forall i | 0 <= i < n - 1 ensures es[i] == Classify(ls[i]) {
      EntriesIndex(data, i);
    }
    LinesPartition(data);
    NewlinesBefore(ls, n - 1);
    ConcatSplit(ls, n - 1);
    var start := |Concat(ls[..n - 1])|;
    assert data[..start] == Concat(ls[..n - 1]);
    assert Concat(ls[n - 1..]) == ls[n - 1].text + Concat(ls[n..]) by {
      assert ls[n - 1..][1..] == ls[n..];
    }
  }

  /** An unterminated remainder after whole lines is processed last, as one more line. */
  lemma AppendFinalLine(prefix: seq<byte>, tail: seq<byte>, lineNo: nat)
    requires WholeLines(prefix)
    requires |tail| > 0 && NL !in tail
    ensures Run(Entries(prefix + tail), lineNo) ==
      if Run(Entries(prefix), lineNo).err.Some? then Run(Entries(prefix), lineNo)
      else Prepend(Run(Entries(prefix), lineNo).pairs,
        Step(Classify(Line(tail, true)), lineNo + |Lines(prefix)|, Outcome([], None)))
  {
    EntriesFinal(prefix, tail);
    RunSnoc(Entries(prefix), Classify(Line(tail, true)), lineNo);
  }

  /** An unterminated remainder after whole lines adds one last entry. */
  lemma EntriesFinal(prefix: seq<byte>, tail: seq<byte>)
    requires WholeLines(prefix)
    requires |tail| > 0 && NL !in tail
    ensures Entries(prefix + tail) == Entries(prefix) + [Classify(Line(tail, true))]
    ensures |Entries(prefix)| == |Lines(prefix)|
  {
    var last := Line(tail, true);
    LinesAppend(prefix, tail);
    FinalLine(tail);
    MapAppend(Classify, Lines(prefix), [last]);
    MapSingle(Classify, last);
  }

  /**
   * The final-line quirk: a 1-byte remainder, or a 2-byte one led by `\r`,
   * with no line feed is dropped without error, whatever it holds.
   */
  lemma FinalRemainderDropped(prefix: seq<byte>, tail: seq<byte>)
    requires WholeLines(prefix)
    requires NL !in tail && LooksBlank(tail)
    ensures Parse(prefix + tail) == Parse(prefix)
  {
    AppendFinalLine(prefix, tail, 1);
    AppendNil(Parse(prefix).pairs);
  }

  // ---------------------------------------------------------------------------
  // Files of well-formed lines

  /** A line of an environment file: an assignment or a blank line, with its terminator. */
  datatype FileLine =
    | Assignment(name: seq<byte>, value: seq<byte>, crlf: bool)
    | Empty(crlf: bool)

  /** The bytes of one file line, terminator included. */
  function RenderLine(f: FileLine): seq<byte>
  {
    match f
    case Assignment(name, value, crlf) => name + [EQ] + value + Newline(crlf)
    case Empty(crlf) => Newline(crlf)
  }

  /** The bytes of a file made of `fs`, every line terminated. */
  function Render(fs: seq<FileLine>): seq<byte>
  {
    if fs == [] then [] else RenderLine(fs[0]) + Render(fs[1..])
  }

  /** True of a file line that reads back as written. */
  predicate Renderable(f: FileLine)
  {
    f.Assignment? ==> Representable(f.name, f.value, f.crlf)
  }

  /** The assignments of `fs`, in order. */
  function Written(fs: seq<FileLine>): seq<Pair>
  {
    if fs == [] then []
    else (if fs[0].Assignment? then [(fs[0].name, fs[0].value)] else []) + Written(fs[1..])
  }

  /** A rendered line holds one line feed, at its end. */
  lemma RenderLineTerminated(f: FileLine)
    requires Renderable(f)
    ensures |RenderLine(f)| > 0 && FirstAt(RenderLine(f), NL, |RenderLine(f)| - 1)
  {
    var pre := if f.Assignment? then f.name + [EQ] + f.value else [];
    var t := RenderLine(f);
    if f.crlf {
      assert t == (pre + [CR]) + [NL] + [];
      FirstAtJoin(pre + [CR], NL, []);
    } else {
      assert t == pre + [NL] + [];
      FirstAtJoin(pre, NL, []);
    }
  }

  /** A rendered line is read back as its assignment, or as blank. */
  lemma RenderLineClassify(f: FileLine)
    requires Renderable(f)
    ensures Classify(Line(RenderLine(f), false)) == if f.Assignment? then Assign(f.name, f.value) else Blank
  {
    if f.Assignment? {
      SplitTerminated(f.name, f.value, f.crlf);
    }
  }

  /** A rendered line followed by more lines is processed first, as one line. */
  lemma RenderStep(f: FileLine, rest: seq<byte>, lineNo: nat)
    requires Renderable(f)
    ensures Run(Entries(RenderLine(f) + rest), lineNo) ==
      if f.Assignment? then Prepend([(f.name, f.value)], Run(Entries(rest), lineNo + 1))
      else Run(Entries(rest), lineNo + 1)
  {
    var l := Line(RenderLine(f), false);
    RenderLineTerminated(f);
    LinesAppend(l.text, rest);
    TerminatedLine(l.text);
    MapCons(Classify, l, Lines(rest));
    RunCons(Classify(l), Entries(rest), lineNo);
    RenderLineClassify(f);
  }

  /**
   * Round trip: a file of `NAME=VALUE` and blank lines, with any mix of `\n`
   * and `\r\n`, assigns every name its value in file order and skips the
   * blank lines, without error.
   */
  lemma {:induction false} RenderParse(fs: seq<FileLine>, lineNo: nat)
    requires forall i | 0 <= i < |fs| :: Renderable(fs[i])
    ensures Run(Entries(Render(fs)), lineNo) == Outcome(Written(fs), None)
  {
    if fs != [] {
      assert Renderable(fs[0]);
      assert forall i | 0 <= i < |fs[1..]| :: fs[1..][i] == fs[i + 1];
      RenderParse(fs[1..], lineNo + 1);
      RenderStep(fs[0], Render(fs[1..]), lineNo);
      AppendNil(Written(fs[1..]));
    }
  }

  /**
   * A last line `name=value` with no terminator, after whole lines that are
   * processed without error, is assigned after their assignments.
   */
  lemma FinalAssignmentMade(prefix: seq<byte>, ps: seq<Pair>, name: seq<byte>, value: seq<byte>)
    requires WholeLines(prefix)
    requires Parse(prefix) == Outcome(ps, None)
    requires EQ !in name && NL !in name && NL !in value
    requires !LooksBlank(name + [EQ] + value)
    ensures Parse(prefix + (name + [EQ] + value)) == Outcome(ps + [(name, value)], None)
  {
    NotInJoin(name, EQ, value, NL);
    SplitFinal(name, value);
    FinalEntry(prefix, ps, name + [EQ] + value);
  }

  /** A last, unterminated line that assigns is processed after lines that made `ps`. */
  lemma FinalEntry(prefix: seq<byte>, ps: seq<Pair>, tail: seq<byte>)
    requires WholeLines(prefix)
    requires Run(Entries(prefix), 1) == Outcome(ps, None)
    requires |tail| > 0 && NL !in tail && Classify(Line(tail, true)).Assign?
    ensures Parse(prefix + tail) ==
      Outcome(ps + [(Classify(Line(tail, true)).name, Classify(Line(tail, true)).value)], None)
  {
    AppendFinalLine(prefix, tail, 1);
    FinalAssignment(Run(Entries(prefix + tail), 1), Run(Entries(prefix), 1), ps,
      Classify(Line(tail, true)), 1 + |Lines(prefix)|);
  }

  /** Completed processing whose last line assigns, after lines that made `ps`. */
  lemma FinalAssignment(whole: Outcome, first: Outcome, ps: seq<Pair>, e: Entry, lineNo: nat)
    requires first == Outcome(ps, None) && e.Assign?
    requires whole == if first.err.Some? then first else Prepend(first.pairs, Step(e, lineNo, Outcome([], None)))
    ensures whole == Outcome(ps + [(e.name, e.value)], None)
  {
    AppendNil([(e.name, e.value)]);
  }

  /**
   * A file whose last line `name=value` has no terminator still assigns it,
   * after all the earlier lines' assignments.
   */
  lemma RenderParseFinal(fs: seq<FileLine>, name: seq<byte>, value: seq<byte>)
    requires forall i | 0 <= i < |fs| :: Renderable(fs[i])
    requires EQ !in name && NL !in name && NL !in value
    requires !LooksBlank(name + [EQ] + value)
    ensures Parse(Render(fs) + (name + [EQ] + value)) == Outcome(Written(fs) + [(name, value)], None)
  {
    RenderEndsInNewline(fs);
    RenderParsed(fs);
    FinalAssignmentMade(Render(fs), Written(fs), name, value);
  }

  /** The round trip, read from the first line. */
  lemma RenderParsed(fs: seq<FileLine>)
    requires forall i | 0 <= i < |fs| :: Renderable(fs[i])
    ensures Parse(Render(fs)) == Outcome(Written(fs), None)
  {
    RenderParse(fs, 1);
  }

  /** A rendered file is empty or ends in a line feed. */
  lemma {:induction false} RenderEndsInNewline(fs: seq<FileLine>)
    ensures WholeLines(Render(fs))
  {
    if fs != [] {
      RenderEndsInNewline(fs[1..]);
      assert RenderLine(fs[0])[|RenderLine(fs[0])| - 1] == NL;
    }
  }

  // ---------------------------------------------------------------------------
  // The driver

  /**
   * The start of an iteration: the line up to and including the first
   * terminator or, when there is none, the whole remainder, flagged `eof`.
   */
  method TakeLine(data: seq<byte>) returns (line: seq<byte>, eof: bool)
    requires |data| > 0
    ensures Line(line, eof) == NextLine(data)
  {
    var r := ReadUntilNewline(data, true);
    eof := false;
    if r.Err? {
      line := data;
      eof := true;
    } else {
      line := r.value;
    }
  }

  /**
   * The rest of an iteration, for a line that is not blank: the name before
   * the first `=`, then the value up to the terminator or, on the last
   * line, up to the end. It decides as `Classify` does.
   */
  method SplitLine(line: seq<byte>, eof: bool, lineNo: nat) returns (r: Result<Pair, EnvError>)
    requires !LooksBlank(line)
    ensures match Classify(Line(line, eof))
      case Assign(name, value) => r == Ok((name, value))
      case NoSeparator(inner) => r == Err(MissingSeparator(lineNo, inner))
      case BadValue(name, inner) => r == Err(ValueUnreadable(name, inner))
      case Blank => false
  {
    var name := ReadUntil(line, EQ, false);
    if name.Err? {
      return Err(MissingSeparator(lineNo, name.error));
    }
    var valueStart := |name.value| + 1;
    var value: seq<byte>;
    if eof {
      value := line[valueStart..];
    } else {
      var v := ReadUntilNewline(line[valueStart..], false);
      if v.Err? {
        return Err(ValueUnreadable(name.value, v.error));
      }
      value := v.value;
    }
    return Ok((name.value, value));
  }

  /**
   * The bytes an iteration consumes: the consumed prefix and the remainder
   * still make up the input, and the line counter stays one more than the
   * number of line feeds consumed.
   */
  lemma Consume(input: seq<byte>, consumed: seq<byte>, data: seq<byte>, line: seq<byte>, lineNo: nat)
    requires consumed + data == input && multiset(consumed)[NL] == lineNo - 1
    requires |data| > 0 && Line(line, false) == NextLine(data)
    ensures (consumed + line) + data[|line|..] == input
    ensures multiset(consumed + line)[NL] == lineNo
  {
    NextLineWellFormed(data);
    SplitJoin(data, |line|);
    AppendAssoc(consumed, line, data[|line|..]);
    SplitJoin(line, |line| - 1);
    assert multiset(line[|line| - 1..])[NL] == 1 by {
      assert line[|line| - 1..] == [NL];
    }
  }

  /**
   * Go's `deserAndSetEnvironment`: the loop that carves off one line per
   * iteration and assigns into `env`. It makes exactly the assignments of
   * `Parse(input)`, in order, and returns its error.
   */
  method DeserAndSetEnvironment(input: seq<byte>, env: Environment) returns (err: Option<EnvError>)
    requires env.Valid()
    modifies env
    ensures env.Valid() && env.initial == old(env.initial)
    ensures err == Parse(input).err
    ensures env.log == old(env.log) + Parse(input).pairs
    ensures env.vars == Assigned(old(env.vars), Parse(input).pairs)
  {
    var data := input;
    var lineNo: nat := 1;
    ghost var made: seq<Pair> := [];
    ghost var whole := Parse(input);
    ghost var consumed: seq<byte> := [];
    while |data| > 0
      invariant consumed + data == input && multiset(consumed)[NL] == lineNo - 1
      invariant env.Valid() && env.initial == old(env.initial)
      invariant env.log == old(env.log) + made
      invariant env.vars == Assigned(old(env.vars), made)
      invariant whole == Prepend(made, Run(Entries(data), lineNo))
      decreases |data|
    {
      var line, eof := TakeLine(data);
      Advance(data, lineNo);

      // the blank-line test (`LooksBlank`): skips "\n" and "\r\n", and any 1-byte or "\r"-led 2-byte remainder
      if |line| == 1 || (|line| == 2 && line[0] == CR) {
        if eof {
          Finished(whole, made, None);
          break;
        }
        Consume(input, consumed, data, line, lineNo);
        consumed := consumed + line;
        data := data[|line|..];
        lineNo := lineNo + 1;
        continue;
      }

      var r := SplitLine(line, eof, lineNo);
      if r.Err? {
        Finished(whole, made, Some(r.error));
        return Some(r.error);
      }

      ghost var before := made;
      env.Setenv(r.value.0, r.value.1);
      made := made + [r.value];
      AppendAssoc(old(env.log), before, [r.value]);
      AssignedSnoc(old(env.vars), before, r.value);
      PrependTwice(before, [r.value], After(data, lineNo));
      if eof {
        Finished(whole, made, None);
        break;
      }
      Consume(input, consumed, data, line, lineNo);
      consumed := consumed + line;
      data := data[|line|..];
      lineNo := lineNo + 1;
    }
    if |data| == 0 {
      Finished(whole, made, None);
    }
    return None;
  }

  /**
   * Go's `ProcessEnv`, with the read of `.env` passed in: `None` when the file
   * could not be read, which is reported without detail.
   */
  method ProcessEnv(file: Option<seq<byte>>, env: Environment) returns (err: Option<EnvError>)
    requires env.Valid()
    modifies env
    ensures env.Valid() && env.initial == old(env.initial)
    ensures file.None? ==> err == Some(FileUnavailable) && env.vars == old(env.vars) && env.log == old(env.log)
    ensures file.Some? ==> err == Parse(file.value).err
    ensures file.Some? ==> env.log == old(env.log) + Parse(file.value).pairs
    ensures file.Some? ==> env.vars == Assigned(old(env.vars), Parse(file.value).pairs)
  {
    if file.None? {
      return Some(FileUnavailable);
    }
    err := DeserAndSetEnvironment(file.value, env);
  }
}
