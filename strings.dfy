/** Python string and list behaviour that the ingestion pipeline relies on:
    whitespace, strip(), split(), join(), prefix slicing, substring tests and int(). */
module Strings {

  datatype Option<+T> = None | Some(value: T)

  /** Truth value of an optional integer argument such as `max_docs`:
      None and 0 are falsy. */
  predicate Truthy(n: Option<int>) {
    n.Some? && n.value != 0
  }

  function Min(a: int, b: int): int { if a <= b then a else b }
  function Max(a: int, b: int): int { if a <= b then b else a }

  /** str.isspace() of one character: ASCII whitespace, the information
      separators 0x1C..0x1F, and the Unicode space and line-break characters. */
  predicate IsSpace(c: char) {
    || c == ' ' || c == '\t' || c == '\n' || c == '\r'
    || c == '\U{0B}' || c == '\U{0C}'
    || ('\U{1C}' <= c <= '\U{1F}')
    || c == '\U{85}' || c == '\U{A0}' || c == '\U{1680}'
    || ('\U{2000}' <= c <= '\U{200A}')
    || c == '\U{2028}' || c == '\U{2029}' || c == '\U{202F}' || c == '\U{205F}' || c == '\U{3000}'
  }

  predicate IsDigit(c: char) { '0' <= c <= '9' }

  /** No leading and no trailing whitespace. */
  predicate Trimmed(s: string) {
    s == [] || (!IsSpace(s[0]) && !IsSpace(s[|s| - 1]))
  }

  /** str.lstrip(): the suffix left after dropping leading whitespace. */
  function LStrip(s: string): (r: string)
    ensures |r| <= |s| && r == s[|s| - |r|..]
    ensures forall i :: 0 <= i < |s| - |r| ==> IsSpace(s[i])
    ensures r == [] || !IsSpace(r[0])
  {
    if s != [] && IsSpace(s[0]) then
      var r := LStrip(s[1..]);
      assert s[1..][|s| - 1 - |r|..] == s[|s| - |r|..];
      assert forall i :: 1 <= i < |s| - |r| ==> s[i] == s[1..][i - 1];
      r
    else s
  }

  /** str.rstrip(): the prefix left after dropping trailing whitespace. */
  function RStrip(s: string): (r: string)
    ensures |r| <= |s| && r == s[..|r|]
    ensures forall i :: |r| <= i < |s| ==> IsSpace(s[i])
    ensures r == [] || !IsSpace(r[|r| - 1])
  {
    if s != [] && IsSpace(s[|s| - 1]) then
      var r := RStrip(s[..|s| - 1]);
      assert s[..|s| - 1][..|r|] == s[..|r|];
      assert forall i :: |r| <= i < |s| - 1 ==> s[i] == s[..|s| - 1][i];
      r
    else s
  }

  /** r occurs in s starting at index i. */
  predicate OccursAt(s: string, i: int, r: string) {
    0 <= i <= |s| - |r| && s[i..i + |r|] == r
  }

  /** str.strip(): whitespace dropped at both ends (see StripDropsOnlySpace). */
  function Strip(s: string): (r: string)
    ensures |r| <= |s| && Trimmed(r)
  {
    RStrip(LStrip(s))
  }

  /** Every character of w is whitespace. */
  predicate AllSpace(w: string) {
    forall k :: 0 <= k < |w| ==> IsSpace(w[k])
  }

  /** Strip keeps a slice of s and drops only whitespace around it. */
  lemma StripDropsOnlySpace(s: string)
    ensures exists i :: OccursAt(s, i, Strip(s)) && AllSpace(s[..i]) && AllSpace(s[i + |Strip(s)|..])
  {
    var l := LStrip(s);
    var r := RStrip(l);
    var i := |s| - |l|;
    assert r == Strip(s);
    assert s[i..i + |r|] == l[..|r|];
    LStripDropsSpace(s);
    RStripDropsSpace(l);
    assert s[i + |r|..] == l[|r|..];
    assert OccursAt(s, i, r) && AllSpace(s[..i]) && AllSpace(s[i + |r|..]);
  }

  lemma LStripDropsSpace(s: string)
    ensures AllSpace(s[..|s| - |LStrip(s)|])
  {
    var front := s[..|s| - |LStrip(s)|];
    forall k | 0 <= k < |front| ensures IsSpace(front[k]) {
      assert front[k] == s[k];
    }
  }

  lemma RStripDropsSpace(s: string)
    ensures AllSpace(s[|RStrip(s)|..])
  {
    var back := s[|RStrip(s)|..];
    forall k | 0 <= k < |back| ensures IsSpace(back[k]) {
      assert back[k] == s[|RStrip(s)| + k];
    }
  }

  lemma {:induction false} StripOfTrimmed(s: string)
    requires Trimmed(s)
    ensures Strip(s) == s
  {
  }

  /** Length of the longest prefix of s without whitespace. */
  function TokenLen(s: string): (n: nat)
    ensures n <= |s|
    ensures forall i :: 0 <= i < n ==> !IsSpace(s[i])
    ensures n < |s| ==> IsSpace(s[n])
  {
    if s != [] && !IsSpace(s[0]) then 1 + TokenLen(s[1..]) else 0
  }

  predicate IsWord(w: string) {
    w != [] && forall i :: 0 <= i < |w| ==> !IsSpace(w[i])
  }

  /** str.split() without a separator: the maximal runs of non-whitespace, in order. */
  function Split(s: string): seq<string>
    decreases |s|
  {
    var t := LStrip(s);
    if t == [] then []
    else
      var n := TokenLen(t);
      assert !IsSpace(t[0]);
      [t[..n]] + Split(t[n..])
  }

  /** The token at the head of a string that starts with a non-space is a word. */
  lemma TokenIsWord(t: string)
    requires t != [] && !IsSpace(t[0])
    ensures IsWord(t[..TokenLen(t)])
  {
    var w := t[..TokenLen(t)];
    forall i | 0 <= i < |w| ensures !IsSpace(w[i]) {
      assert w[i] == t[i];
    }
  }

  lemma WordsOfCons(w: string, rest: seq<string>)
    requires IsWord(w) && forall k :: 0 <= k < |rest| ==> IsWord(rest[k])
    ensures forall k :: 0 <= k < |[w] + rest| ==> IsWord(([w] + rest)[k])
  {
    forall k | 0 <= k < |[w] + rest| ensures IsWord(([w] + rest)[k]) {
      if k > 0 {
        assert ([w] + rest)[k] == rest[k - 1];
      }
    }
  }

  /** Every piece split() returns is a non-empty run without whitespace. */
  lemma {:induction false} SplitGivesWords(s: string)
    ensures forall k :: 0 <= k < |Split(s)| ==> IsWord(Split(s)[k])
    decreases |s|
  {
    var t := LStrip(s);
    if t != [] {
      var n := TokenLen(t);
      assert Split(s) == [t[..n]] + Split(t[n..]);
      TokenIsWord(t);
      SplitGivesWords(t[n..]);
      WordsOfCons(t[..n], Split(t[n..]));
    }
  }

  /** Reference count of words: positions holding a non-space character that
      starts the string or follows a space. */
  function WordStarts(s: string, afterSpace: bool): nat
  {
    if s == [] then 0
    else (if afterSpace && !IsSpace(s[0]) then 1 else 0) + WordStarts(s[1..], IsSpace(s[0]))
  }

  lemma {:induction false} WordStartsSkipsLeadingSpace(s: string)
    ensures WordStarts(s, true) == WordStarts(LStrip(s), true)
    decreases |s|
  {
    if s != [] && IsSpace(s[0]) {
      WordStartsSkipsLeadingSpace(s[1..]);
    }
  }

  lemma {:induction false} WordStartsOfToken(t: string, b: bool)
    requires t != [] && !IsSpace(t[0])
    ensures WordStarts(t, b) == (if b then 1 else 0) + WordStarts(t[TokenLen(t)..], false)
    decreases |t|
  {
    var t' := t[1..];
    if t' != [] && !IsSpace(t'[0]) {
      WordStartsOfToken(t', false);
      assert t[TokenLen(t)..] == t'[TokenLen(t')..];
    } else {
      assert TokenLen(t) == 1;
    }
  }

  /** len(text.split()) is the number of word starts in text. */
  lemma {:induction false} SplitCountsWordStarts(s: string)
    ensures |Split(s)| == WordStarts(s, true)
    decreases |s|
  {
    WordStartsSkipsLeadingSpace(s);
    var t := LStrip(s);
    if t != [] {
      var n := TokenLen(t);
      WordStartsOfToken(t, true);
      var rest := t[n..];
      assert WordStarts(rest, false) == WordStarts(rest, true);
      SplitCountsWordStarts(rest);
    }
  }

  /** sep.join(parts) */
  function Join(parts: seq<string>, sep: string): string
  {
    if |parts| == 0 then ""
    else if |parts| == 1 then parts[0]
    else parts[0] + sep + Join(parts[1..], sep)
  }

  /** Offset in Join(parts, sep) at which parts[k] begins. */
  function JoinOffset(parts: seq<string>, sep: string, k: nat): nat
    requires k <= |parts|
  {
    if k == 0 then 0 else JoinOffset(parts, sep, k - 1) + |parts[k - 1]| + |sep|
  }

  lemma SliceOfConcat(a: string, b: string, i: int, j: int)
    requires |a| <= i <= j <= |a| + |b|
    ensures (a + b)[i..j] == b[i - |a|..j - |a|]
  {
  }

  /** Every part appears in Join at its offset, in page order. */
  lemma {:induction false} JoinHoldsPart(parts: seq<string>, sep: string, k: nat)
    requires k < |parts|
    ensures JoinOffset(parts, sep, k) + |parts[k]| <= |Join(parts, sep)|
    ensures Join(parts, sep)[JoinOffset(parts, sep, k)..JoinOffset(parts, sep, k) + |parts[k]|] == parts[k]
    decreases k
  {
    if |parts| == 1 {
    } else if k == 0 {
      assert Join(parts, sep) == parts[0] + (sep + Join(parts[1..], sep));
    } else {
      var tail := parts[1..];
      JoinHoldsPart(tail, sep, k - 1);
      JoinOffsetShift(parts, sep, k);
      assert Join(parts, sep) == (parts[0] + sep) + Join(tail, sep);
      var o := JoinOffset(tail, sep, k - 1);
      assert parts[k] == tail[k - 1];
      assert JoinOffset(parts, sep, k) == |parts[0]| + |sep| + o;
      SliceOfConcat(parts[0] + sep, Join(tail, sep), |parts[0]| + |sep| + o, |parts[0]| + |sep| + o + |parts[k]|);
    }
  }

  /** Between consecutive parts Join holds exactly sep. */
  lemma {:induction false} JoinSeparates(parts: seq<string>, sep: string, k: nat)
    requires k + 1 < |parts|
    ensures JoinOffset(parts, sep, k + 1) <= |Join(parts, sep)|
    ensures Join(parts, sep)[JoinOffset(parts, sep, k) + |parts[k]|..JoinOffset(parts, sep, k + 1)] == sep
    decreases k
  {
    if k == 0 {
      assert Join(parts, sep) == (parts[0] + sep) + Join(parts[1..], sep);
    } else {
      var tail := parts[1..];
      JoinSeparates(tail, sep, k - 1);
      JoinOffsetShift(parts, sep, k);
      JoinOffsetShift(parts, sep, k + 1);
      assert Join(parts, sep) == (parts[0] + sep) + Join(tail, sep);
      var p := |parts[0]| + |sep|;
      var o1 := JoinOffset(tail, sep, k - 1);
      var o2 := JoinOffset(tail, sep, k);
      assert parts[k] == tail[k - 1];
      assert JoinOffset(parts, sep, k) + |parts[k]| == p + o1 + |tail[k - 1]|;
      assert JoinOffset(parts, sep, k + 1) == p + o2;
      SliceOfConcat(parts[0] + sep, Join(tail, sep), p + o1 + |tail[k - 1]|, p + o2);
    }
  }

  lemma {:induction false} JoinOffsetShift(parts: seq<string>, sep: string, k: nat)
    requires 1 <= k <= |parts|
    ensures JoinOffset(parts, sep, k) == |parts[0]| + |sep| + JoinOffset(parts[1..], sep, k - 1)
    decreases k
  {
    if k > 1 {
      JoinOffsetShift(parts, sep, k - 1);
    }
  }

  /** With a non-empty separator the join is empty only for no parts or one empty part. */
  lemma {:induction false} JoinEmptyIff(parts: seq<string>, sep: string)
    requires sep != []
    ensures Join(parts, sep) == [] <==> |parts| == 0 || (|parts| == 1 && parts[0] == [])
  {
    if |parts| >= 2 {
      assert |Join(parts, sep)| >= |sep|;
    }
  }

  /** s[:n] in Python, where a negative n counts from the end. */
  function PyPrefix<T>(s: seq<T>, n: int): (r: seq<T>)
    ensures |r| == if n >= 0 then Min(n, |s|) else Max(0, |s| + n)
    ensures r == s[..|r|]
  {
    if n >= 0 then (if n <= |s| then s[..n] else s)
    else if |s| + n >= 0 then s[..|s| + n]
    else []
  }

  /** `sub in s` */
  predicate Contains(s: string, sub: string)
    decreases |s|
  {
    sub <= s || (s != [] && Contains(s[1..], sub))
  }

  lemma PrefixOccurs(s: string, sub: string)
    ensures sub <= s <==> OccursAt(s, 0, sub)
  {
    if |sub| <= |s| {
      assert s[0..|sub|] == s[..|sub|];
    }
  }

  /** An occurrence past the first character is an occurrence in the tail. */
  lemma OccursAtTail(s: string, sub: string, i: int)
    requires s != [] && 1 <= i
    ensures OccursAt(s, i, sub) <==> OccursAt(s[1..], i - 1, sub)
  {
    if i <= |s| - |sub| {
      var a := s[i..i + |sub|];
      var b := s[1..][i - 1..i - 1 + |sub|];
      forall j | 0 <= j < |sub| ensures a[j] == b[j] {
        assert a[j] == s[i + j] && b[j] == s[i + j];
      }
      assert a == b;
    }
  }

  lemma {:induction false} ContainsIff(s: string, sub: string)
    ensures Contains(s, sub) <==> exists i :: OccursAt(s, i, sub)
    decreases |s|
  {
    PrefixOccurs(s, sub);
    if s != [] && !(sub <= s) {
      ContainsIff(s[1..], sub);
      forall i | OccursAt(s, i, sub) ensures OccursAt(s[1..], i - 1, sub) {
        OccursAtTail(s, sub, i);
      }
      forall i | OccursAt(s[1..], i, sub) ensures OccursAt(s, i + 1, sub) {
        OccursAtTail(s, sub, i + 1);
      }
    }
  }

  /** A non-empty string of ASCII digits: what the portal uses as a DocumentId. */
  predicate IsDecimal(s: string) {
    s != [] && forall i :: 0 <= i < |s| ==> IsDigit(s[i])
  }

  function DigitValue(c: char): nat
    requires IsDigit(c)
  {
    (c as int - '0' as int) as nat
  }

  /** int(s) for a string of ASCII digits (leading zeros allowed). */
  function DecimalValue(s: string): nat
    requires forall i :: 0 <= i < |s| ==> IsDigit(s[i])
  {
    if s == [] then 0 else 10 * DecimalValue(s[..|s| - 1]) + DigitValue(s[|s| - 1])
  }
}
