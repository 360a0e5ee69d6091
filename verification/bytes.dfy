/** Byte strings, the representation behind Go's `string` and `[]byte`, with
    the handful of `strings` package operations the program relies on. */
module Bytes {
  import opened Outcomes

  type byte = b: int | 0 <= b < 256

  const NL: byte := 10
  const SP: byte := 32
  const MINUS: byte := 45
  const COLON: byte := 58
  const EQUALS: byte := 61

  /** The bytes of an ASCII string literal (its UTF-8 encoding). */
  function Ascii(s: string): (r: seq<byte>)
    ensures |r| == |s|
    ensures forall i :: 0 <= i < |s| ==> r[i] == (s[i] as int) % 256
  {
    seq(|s|, i requires 0 <= i < |s| => (s[i] as int) % 256)
  }

  lemma AsciiConcat(s: string, t: string)
    ensures Ascii(s + t) == Ascii(s) + Ascii(t)
  {
  }

  lemma AsciiLine(s: string)
    ensures Ascii(s) + [NL] == Ascii(s + "\n")
  {
    AsciiConcat(s, "\n");
  }

  /** ASCII upper-casing of one byte: `a`..`z` become `A`..`Z`, all other bytes stay. */
  function UpperByte(b: byte): byte {
    if 97 <= b <= 122 then b - 32 else b
  }

  /** `strings.ToUpper`, restricted to ASCII letters. */
  function ToUpper(s: seq<byte>): (r: seq<byte>)
    ensures |r| == |s|
    ensures forall i :: 0 <= i < |s| ==> r[i] == UpperByte(s[i])
  {
    seq(|s|, i requires 0 <= i < |s| => UpperByte(s[i]))
  }

  predicate IsUpper(s: seq<byte>) {
    forall i :: 0 <= i < |s| ==> !(97 <= s[i] <= 122)
  }

  /** Upper-casing leaves nothing to upper-case and is the identity on
      strings that are already upper-case. */
  lemma ToUpperIdempotent(s: seq<byte>)
    ensures IsUpper(ToUpper(s))
    ensures ToUpper(ToUpper(s)) == ToUpper(s)
    ensures IsUpper(s) ==> ToUpper(s) == s
  {
  }

  /** Number of occurrences of `b` in `s`. */
  function Count(s: seq<byte>, b: byte): nat
    decreases |s|
  {
    if s == [] then 0 else (if s[0] == b then 1 else 0) + Count(s[1..], b)
  }

  lemma {:induction false} CountConcat(s: seq<byte>, t: seq<byte>, b: byte)
    ensures Count(s + t, b) == Count(s, b) + Count(t, b)
    decreases |s|
  {
    if s == [] {
      assert s + t == t;
    } else {
      assert (s + t)[1..] == s[1..] + t;
      CountConcat(s[1..], t, b);
    }
  }

  lemma {:induction false} CountAbsent(s: seq<byte>, b: byte)
    requires b !in s
    ensures Count(s, b) == 0
    decreases |s|
  {
    if s != [] {
      assert s[0] != b;
      CountAbsent(s[1..], b);
    }
  }

  /** Index of the first `b` in `s`, or `|s|` when there is none. */
  function IndexOf(s: seq<byte>, b: byte): (i: nat)
    ensures i <= |s|
    ensures i < |s| ==> s[i] == b
    ensures forall j :: 0 <= j < i ==> s[j] != b
    decreases |s|
  {
    if s == [] then 0 else if s[0] == b then 0 else 1 + IndexOf(s[1..], b)
  }

  /** `strings.Cut`: the text before and after the first `sep`, if any. */
  function Cut(s: seq<byte>, sep: byte): (r: Option<(seq<byte>, seq<byte>)>)
    ensures r.None? <==> sep !in s
    ensures r.Some? ==> sep !in r.value.0 && s == r.value.0 + [sep] + r.value.1
  {
    var i := IndexOf(s, sep);
    if i == |s| then None else Some((s[..i], s[i + 1..]))
  }

  /** A byte absent from `a + [sep] + b` is absent from `a` and from `b`. */
  lemma NotInParts(a: seq<byte>, sep: byte, b: seq<byte>, c: byte)
    requires c !in a + [sep] + b
    ensures c !in a && c !in b
  {
    assert forall i :: 0 <= i < |a| ==> a[i] == (a + [sep] + b)[i];
    assert forall i :: 0 <= i < |b| ==> b[i] == (a + [sep] + b)[|a| + 1 + i];
  }

  /** Cutting at the first separator recovers a prefix that holds none. */
  lemma CutPrefix(a: seq<byte>, sep: byte, b: seq<byte>)
    requires sep !in a
    ensures Cut(a + [sep] + b, sep) == Some((a, b))
  {
    var s := a + [sep] + b;
    var i := IndexOf(s, sep);
    assert s[|a|] == sep;
    assert i == |a| by {
      assert forall j :: 0 <= j < |a| ==> s[j] == a[j];
    }
    assert s[..i] == a;
    assert s[i + 1..] == b;
  }

  /** The text before and after the last `sep`, if any. */
  function CutLast(s: seq<byte>, sep: byte): (r: Option<(seq<byte>, seq<byte>)>)
    ensures r.None? <==> sep !in s
    ensures r.Some? ==> sep !in r.value.1 && s == r.value.0 + [sep] + r.value.1
    decreases |s|
  {
    if s == [] then None
    else if s[|s| - 1] == sep then Some((s[..|s| - 1], []))
    else match CutLast(s[..|s| - 1], sep)
      case None => None
      case Some((a, b)) => Some((a, b + [s[|s| - 1]]))
  }

  /** Cutting at the last separator recovers a suffix that holds none. */
  lemma {:induction false} CutLastSuffix(a: seq<byte>, sep: byte, b: seq<byte>)
    requires sep !in b
    ensures CutLast(a + [sep] + b, sep) == Some((a, b))
    decreases |b|
  {
    var s := a + [sep] + b;
    if b == [] {
      assert s[..|s| - 1] == a;
    } else {
      var b' := b[..|b| - 1];
      assert s[..|s| - 1] == a + [sep] + b';
      assert s[|s| - 1] == b[|b| - 1];
      CutLastSuffix(a, sep, b');
      assert b' + [b[|b| - 1]] == b;
    }
  }

  /** `strings.Split` with a one-byte separator. */
  function Split(s: seq<byte>, sep: byte): (r: seq<seq<byte>>)
    decreases |s|
  {
    match Cut(s, sep)
    case None => [s]
    case Some((a, b)) => [a] + Split(b, sep)
  }

  /** A split has one more piece than there are separators. */
  lemma {:induction false} SplitCount(s: seq<byte>, sep: byte)
    ensures |Split(s, sep)| == Count(s, sep) + 1
    decreases |s|
  {
    match Cut(s, sep)
    case None => CountAbsent(s, sep);
    case Some((a, b)) =>
      SplitCount(b, sep);
      CountConcat(a, [sep] + b, sep);
      CountAbsent(a, sep);
      assert a + ([sep] + b) == a + [sep] + b;
      assert ([sep] + b)[1..] == b;
  }

  /** Splitting a piece free of the separator, followed by the separator, peels off that piece. */
  lemma SplitCons(a: seq<byte>, sep: byte, rest: seq<byte>)
    requires sep !in a
    ensures Split(a + [sep] + rest, sep) == [a] + Split(rest, sep)
  {
    CutPrefix(a, sep, rest);
  }

  lemma SplitNone(s: seq<byte>, sep: byte)
    requires sep !in s
    ensures Split(s, sep) == [s]
  {
  }

  /** `strings.Join`. */
  function Join(parts: seq<seq<byte>>, sep: seq<byte>): seq<byte>
    decreases |parts|
  {
    if parts == [] then []
    else if |parts| == 1 then parts[0]
    else parts[0] + sep + Join(parts[1..], sep)
  }

  /** Joining the pieces of a split with the separator gives back the original. */
  lemma {:induction false} JoinSplit(s: seq<byte>, sep: byte)
    ensures Join(Split(s, sep), [sep]) == s
    decreases |s|
  {
    match Cut(s, sep)
    case None =>
    case Some((a, b)) =>
      JoinSplit(b, sep);
      var rest := Split(b, sep);
      assert Split(s, sep) == [a] + rest;
      assert ([a] + rest)[1..] == rest;
  }

  /** No piece of a split holds the separator. */
  lemma {:induction false} SplitPiecesPlain(s: seq<byte>, sep: byte)
    ensures forall i :: 0 <= i < |Split(s, sep)| ==> sep !in Split(s, sep)[i]
    decreases |s|
  {
    match Cut(s, sep)
    case None =>
    case Some((a, b)) =>
      SplitPiecesPlain(b, sep);
      assert Split(s, sep) == [a] + Split(b, sep);
  }

  /** The lines written one after another, each followed by `sep`. */
  function Terminated(lines: seq<seq<byte>>, sep: byte): seq<byte>
    decreases |lines|
  {
    if lines == [] then [] else lines[0] + [sep] + Terminated(lines[1..], sep)
  }

  lemma PlainTail(lines: seq<seq<byte>>, sep: byte)
    requires |lines| > 0 && forall i :: 0 <= i < |lines| ==> sep !in lines[i]
    ensures sep !in lines[0] && forall i :: 0 <= i < |lines[1..]| ==> sep !in lines[1..][i]
  {
    assert forall i :: 0 <= i < |lines[1..]| ==> lines[1..][i] == lines[i + 1];
  }

  /** Splitting separator-free lines, each terminated by the separator,
      gives back the lines followed by one empty piece. */
  lemma {:induction false} SplitTerminated(lines: seq<seq<byte>>, sep: byte)
    requires forall i :: 0 <= i < |lines| ==> sep !in lines[i]
    ensures Split(Terminated(lines, sep), sep) == lines + [[]]
    decreases |lines|
  {
    if lines == [] {
      SplitNone([], sep);
    } else {
      var t := Terminated(lines[1..], sep);
      PlainTail(lines, sep);
      SplitTerminated(lines[1..], sep);
      SplitTerminatedStep(lines[0], sep, t, lines[1..]);
      assert [lines[0]] + lines[1..] == lines;
    }
  }

  lemma AppendAssoc<T>(a: seq<T>, b: seq<T>, c: seq<T>)
    ensures a + (b + c) == a + b + c
  {
  }

  lemma SplitTerminatedStep(head: seq<byte>, sep: byte, t: seq<byte>, tail: seq<seq<byte>>)
    requires sep !in head && Split(t, sep) == tail + [[]]
    ensures Split(head + [sep] + t, sep) == [head] + tail + [[]]
  {
    SplitCons(head, sep, t);
    AppendAssoc([head], tail, [[]]);
  }

  /** Separator-free lines, each terminated, hold one separator per line
      and end in one. */
  lemma {:induction false} CountTerminated(lines: seq<seq<byte>>, sep: byte)
    requires forall i :: 0 <= i < |lines| ==> sep !in lines[i]
    ensures Count(Terminated(lines, sep), sep) == |lines|
    ensures lines != [] ==> Terminated(lines, sep)[|Terminated(lines, sep)| - 1] == sep
    decreases |lines|
  {
    if lines != [] {
      var rest := Terminated(lines[1..], sep);
      CountTerminated(lines[1..], sep);
      CountAbsent(lines[0], sep);
      CountConcat(lines[0], [sep], sep);
      CountConcat(lines[0] + [sep], rest, sep);
    }
  }

  /** Joining lines and one empty piece with `sep` is terminating each line with `sep`. */
  lemma {:induction false} JoinTerminated(lines: seq<seq<byte>>, sep: byte)
    ensures Join(lines + [[]], [sep]) == Terminated(lines, sep)
    decreases |lines|
  {
    var l := lines + [[]];
    if lines == [] {
      assert l == [[]];
    } else {
      JoinTerminated(lines[1..], sep);
      assert l[1..] == lines[1..] + [[]];
      assert Join(l, [sep]) == lines[0] + [sep] + Join(l[1..], [sep]);
    }
  }

  /** A string whose split is `lines` followed by one empty piece is `lines`,
      each terminated by the separator. */
  lemma Reassemble(s: seq<byte>, lines: seq<seq<byte>>, sep: byte)
    requires Split(s, sep) == lines + [[]]
    ensures Terminated(lines, sep) == s
  {
    JoinSplit(s, sep);
    JoinTerminated(lines, sep);
  }
}
