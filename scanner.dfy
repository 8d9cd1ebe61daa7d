/**
 * The byte scanners of env.go: `readUntil`, which returns the prefix of a
 * buffer up to the first occurrence of one delimiter byte, and
 * `readUntilNewline`, which does the same for a line terminator that is either
 * a bare line feed or a carriage return followed by a line feed.
 *
 * Each scanner is given twice: as a specification function (`UntilByte`,
 * `UntilNewline`) whose contract states the first-occurrence facts, and as a
 * method with the source's scanning loop (`ReadUntil`, `ReadUntilNewline`)
 * proved equal to it.
 */
module Scanner {
  import opened Wrappers

  newtype byte = b: int | 0 <= b < 256

  const TAB: byte := 9
  const NL: byte := 10
  const CR: byte := 13
  const SPACE: byte := 32

  /** Why a scan found nothing. */
  datatype ScanError =
    /** `delim` does not occur; `friendlyName` is the name the message gives it, if any. */
    | DelimiterNotFound(delim: byte, friendlyName: Option<string>)
    /** Neither a line feed nor a carriage return/line feed pair occurs. */
    | NoNewline

  /** The friendly names of the commonly searched delimiter bytes. */
  const CharMap: map<byte, string> :=
    map[NL := "newline", CR := "carriage return", SPACE := "space", TAB := "tab"]

  /**
   * The name an error message gives a missing delimiter: one from `CharMap`,
   * or none, in which case the message shows the byte as a quoted literal.
   */
  function FriendlyName(c: byte): (r: Option<string>)
    ensures r.Some? <==> c == NL || c == CR || c == SPACE || c == TAB
    ensures r.Some? ==> r.value != ""
  {
    if c in CharMap then Some(CharMap[c]) else None
  }

  /** `k` is the index of the first occurrence of `c` in `buf`. */
  predicate FirstAt(buf: seq<byte>, c: byte, k: int)
  {
    0 <= k < |buf| && buf[k] == c && forall i | 0 <= i < k :: buf[i] != c
  }

  /** There is at most one first occurrence. */
  lemma FirstAtUnique(buf: seq<byte>, c: byte, j: int, k: int)
    requires FirstAt(buf, c, j) && FirstAt(buf, c, k)
    ensures j == k
  {
  }

  /** In `pre + [c] + post` with no `c` in `pre`, the first `c` is the one after `pre`. */
  lemma FirstAtJoin(pre: seq<byte>, c: byte, post: seq<byte>)
    requires c !in pre
    ensures FirstAt(pre + [c] + post, c, |pre|)
    ensures (pre + [c] + post)[..|pre|] == pre
    ensures (pre + [c] + post)[..|pre| + 1] == pre + [c]
    ensures (pre + [c] + post)[|pre| + 1..] == post
  {
    var t := pre + [c] + post;
    forall i | 0 <= i < |pre| ensures t[i] != c {
      assert t[i] == pre[i];
    }
  }

  /**
   * The prefix of `buf` that ends just before (or, with `includeChar`, just
   * after) the first `c`; an error, never a partial prefix, when `c` is absent.
   */
  function UntilByte(buf: seq<byte>, c: byte, includeChar: bool): (r: Result<seq<byte>, ScanError>)
    ensures r.Ok? <==> c in buf
    ensures r.Err? ==> r.error == DelimiterNotFound(c, FriendlyName(c))
    ensures r.Ok? ==> |r.value| <= |buf| && r.value == buf[..|r.value|]
    ensures r.Ok? ==> FirstAt(buf, c, if includeChar then |r.value| - 1 else |r.value|)
  {
    if buf == [] then
      Err(DelimiterNotFound(c, FriendlyName(c)))
    else if buf[0] == c then
      Ok(if includeChar then [c] else [])
    else
      match UntilByte(buf[1..], c, includeChar)
      case Ok(rest) =>
        ConsPrefix(buf, rest);
        FirstAtCons(buf, c, if includeChar then |rest| - 1 else |rest|);
        Ok([buf[0]] + rest)
      case Err(e) =>
        NotInCons(buf, c);
        Err(e)
  }

  /** A prefix of the tail, after the head, is a prefix of the whole. */
  lemma ConsPrefix(buf: seq<byte>, rest: seq<byte>)
    requires |buf| > 0 && |rest| <= |buf[1..]| && rest == buf[1..][..|rest|]
    ensures |[buf[0]] + rest| <= |buf| && [buf[0]] + rest == buf[..|[buf[0]] + rest|]
  {
    assert buf[..|rest| + 1] == [buf[0]] + buf[1..][..|rest|];
  }

  /** A first occurrence in the tail, after a head that differs, is one position later in the whole. */
  lemma FirstAtCons(buf: seq<byte>, c: byte, k: int)
    requires |buf| > 0 && buf[0] != c && FirstAt(buf[1..], c, k)
    ensures FirstAt(buf, c, k + 1)
  {
    forall i | 0 <= i < k + 1 ensures buf[i] != c {
      if i > 0 {
        assert buf[i] == buf[1..][i - 1];
      }
    }
  }

  /** A byte absent from the tail and different from the head is absent. */
  lemma NotInCons(buf: seq<byte>, c: byte)
    requires |buf| > 0 && buf[0] != c && c !in buf[1..]
    ensures c !in buf
  {
    assert buf == [buf[0]] + buf[1..];
  }

  /** The scan result is determined by the index of the first occurrence. */
  lemma UntilByteAt(buf: seq<byte>, c: byte, k: int, includeChar: bool)
    requires FirstAt(buf, c, k)
    ensures UntilByte(buf, c, includeChar) == Ok(buf[..if includeChar then k + 1 else k])
  {
    assert buf[..k + 1][k] == c;
    var r := UntilByte(buf, c, includeChar);
    FirstAtUnique(buf, c, k, if includeChar then |r.value| - 1 else |r.value|);
  }

  /** Where a newline-scan result ends, given the index `k` of the first line feed. */
  function NewlineCut(buf: seq<byte>, k: nat, includeNewline: bool): nat
    requires k < |buf|
  {
    if includeNewline then k + 1
    else if k > 0 && buf[k - 1] == CR then k - 1
    else k
  }

  /**
   * The prefix of `buf` up to the first line terminator: a line feed, or a
   * carriage return immediately followed by it. `includeNewline` keeps the
   * terminator bytes. A carriage return not followed by a line feed is content.
   */
  function UntilNewline(buf: seq<byte>, includeNewline: bool): (r: Result<seq<byte>, ScanError>)
    ensures r.Ok? <==> NL in buf
    ensures r.Err? ==> r.error == NoNewline
    ensures r.Ok? ==> |r.value| <= |buf| && r.value == buf[..|r.value|]
    ensures r.Ok? && includeNewline ==> FirstAt(buf, NL, |r.value| - 1)
    ensures r.Ok? && !includeNewline ==> NL !in r.value
  {
    match UntilByte(buf, NL, true)
    case Err(_) => Err(NoNewline)
    case Ok(line) =>
      if includeNewline then Ok(line)
      else
        var k := |line| - 1;
        Ok(buf[..NewlineCut(buf, k, false)])
  }

  /** The newline-scan result in terms of the first line feed. */
  lemma UntilNewlineAt(buf: seq<byte>, k: int, includeNewline: bool)
    requires FirstAt(buf, NL, k)
    ensures UntilNewline(buf, includeNewline) == Ok(buf[..NewlineCut(buf, k, includeNewline)])
    ensures includeNewline ==> buf[..NewlineCut(buf, k, includeNewline)][k] == NL
  {
    UntilByteAt(buf, NL, k, true);
  }

  /**
   * Through its first line feed at `n`, a buffer is the exclusive
   * newline-scan result followed by the terminator: `\r\n` when a carriage
   * return precedes that line feed, `\n` otherwise.
   */
  lemma UntilNewlineSplit(buf: seq<byte>, n: int)
    requires FirstAt(buf, NL, n)
    ensures UntilNewline(buf, false).Ok?
    ensures buf[..n + 1] ==
      UntilNewline(buf, false).value + (if n > 0 && buf[n - 1] == CR then [CR, NL] else [NL])
  {
    UntilNewlineAt(buf, n, false);
    var m := NewlineCut(buf, n, false);
    assert buf[..n + 1] == buf[..m] + buf[m..n + 1];
    if n > 0 && buf[n - 1] == CR {
      assert buf[m..n + 1] == [CR, NL];
    } else {
      assert buf[m..n + 1] == [NL];
    }
  }

  /** Go's `readUntil`: the scanning loop with its early return. */
  method ReadUntil(buf: seq<byte>, c: byte, includeChar: bool) returns (r: Result<seq<byte>, ScanError>)
    ensures r == UntilByte(buf, c, includeChar)
  {
    for i := 0 to |buf|
      invariant forall j | 0 <= j < i :: buf[j] != c
    {
      if buf[i] == c {
        UntilByteAt(buf, c, i, includeChar);
        if includeChar {
          return Ok(buf[..i + 1]);
        }
        return Ok(buf[..i]);
      }
    }
    assert buf[..|buf|] == buf;
    if c in CharMap {
      return Err(DelimiterNotFound(c, Some(CharMap[c])));
    }
    return Err(DelimiterNotFound(c, None));
  }

  /** Go's `readUntilNewline`: one pass that looks ahead past each carriage return. */
  method ReadUntilNewline(buf: seq<byte>, includeNewline: bool) returns (r: Result<seq<byte>, ScanError>)
    ensures r == UntilNewline(buf, includeNewline)
  {
    for i := 0 to |buf|
      invariant forall j | 0 <= j < i :: buf[j] != NL
      invariant 0 < i < |buf| ==> !(buf[i - 1] == CR && buf[i] == NL)
    {
      if buf[i] == NL {
        UntilNewlineAt(buf, i, includeNewline);
        if includeNewline {
          return Ok(buf[..i + 1]);
        }
        return Ok(buf[..i]);
      }
      if buf[i] == CR {
        if i + 1 < |buf| && buf[i + 1] == NL {
          assert buf[..i + 1] == buf[..i] + [CR];
          UntilNewlineAt(buf, i + 1, includeNewline);
          if includeNewline {
            return Ok(buf[..i + 2]);
          }
          return Ok(buf[..i]);
        }
      }
    }
    assert buf[..|buf|] == buf;
    return Err(NoNewline);
  }
}
