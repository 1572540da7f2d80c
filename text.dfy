/**
 * The JavaScript string operations the blog's components rely on, over
 * `string` (= `seq<char>`): `indexOf`/`includes`, `startsWith`, `replace`
 * with a string pattern, `replace(/^\/+/, "")`, `split` on one character and
 * `pop`, ASCII `toLowerCase`, and the decimal rendering of a count.
 */
module Text {
  import opened Common

  /** `p` occurs in `s` starting at position `i`. */
  predicate PrefixAt(s: string, p: string, i: nat) {
    i + |p| <= |s| && s[i..i + |p|] == p
  }

  /** `s.startsWith(p)`. */
  predicate StartsWith(s: string, p: string) {
    PrefixAt(s, p, 0)
  }

  /** The first position at or after `i` where `p` occurs in `s`. */
  function IndexFrom(s: string, p: string, i: nat): (r: Option<nat>)
    decreases |s| - i
    ensures r.Some? ==> i <= r.value && PrefixAt(s, p, r.value)
    ensures r.Some? ==> forall j :: i <= j < r.value ==> !PrefixAt(s, p, j)
    ensures r.None? ==> forall j :: i <= j ==> !PrefixAt(s, p, j)
  {
    if i + |p| > |s| then None
    else if PrefixAt(s, p, i) then Some(i)
    else IndexFrom(s, p, i + 1)
  }

  /** `s.indexOf(p)`, with `None` for JavaScript's `-1`. */
  function IndexOf(s: string, p: string): (r: Option<nat>)
    ensures r.Some? ==> PrefixAt(s, p, r.value)
    ensures r.Some? ==> forall j: nat :: j < r.value ==> !PrefixAt(s, p, j)
    ensures r.None? <==> forall j: nat :: !PrefixAt(s, p, j)
  {
    IndexFrom(s, p, 0)
  }

  /** The first occurrence of a character that the prefix `a` lacks is right after `a`. */
  lemma FirstCharAt(a: string, c: char, b: string)
    requires c !in a
    ensures IndexOf(a + [c] + b, [c]) == Some(|a|)
  {
    var s := a + [c] + b;
    assert s[|a|..|a| + 1] == [c];
    assert PrefixAt(s, [c], |a|);
    forall j: nat | j < |a|
      ensures !PrefixAt(s, [c], j)
    {
      assert s[j..j + 1] == [a[j]];
    }
  }

  /** `s.includes(p)`. */
  predicate Includes(s: string, p: string) {
    IndexOf(s, p).Some?
  }

  /** `s.replace(p, rep)` with a string pattern: only the FIRST occurrence of
      `p`, wherever it is, is replaced. */
  function ReplaceFirst(s: string, p: string, rep: string): string {
    match IndexOf(s, p)
    case None => s
    case Some(i) => s[..i] + rep + s[i + |p|..]
  }

  /** Without an occurrence the string is unchanged; otherwise exactly the
      first occurrence gives way to `rep`, and the text around it stays. */
  lemma ReplaceFirstCorrect(s: string, p: string, rep: string)
    ensures (forall j: nat :: !PrefixAt(s, p, j)) ==> ReplaceFirst(s, p, rep) == s
    ensures forall i: nat :: PrefixAt(s, p, i) && (forall j: nat :: j < i ==> !PrefixAt(s, p, j)) ==>
      var r := ReplaceFirst(s, p, rep);
      |r| == |s| - |p| + |rep| && r == s[..i] + rep + s[i + |p|..]
  {
  }

  /** `s.replace(/^\/+/, "")`: every leading `/` removed. */
  function StripLeadingSlashes(s: string): (r: string)
    ensures |r| <= |s| && r == s[|s| - |r|..]
    ensures r == [] || r[0] != '/'
    ensures forall k :: 0 <= k < |s| - |r| ==> s[k] == '/'
  {
    if s != [] && s[0] == '/' then StripLeadingSlashes(s[1..]) else s
  }

  /** `s.split(c)` for a one-character separator: every part is free of `c`,
      and there is one more part than there are separators. */
  function Split(s: string, c: char): (r: seq<string>)
    ensures |r| >= 1
    ensures forall k :: 0 <= k < |r| ==> c !in r[k]
    ensures (c !in s) <==> |r| == 1
  {
    if s == [] then [[]]
    else if s[0] == c then [[]] + Split(s[1..], c)
    else
      var t := Split(s[1..], c);
      assert s == [s[0]] + s[1..];
      [[s[0]] + t[0]] + t[1..]
  }

  /** `parts.join(c)`. */
  function Join(parts: seq<string>, c: char): string
    requires |parts| >= 1
  {
    if |parts| == 1 then parts[0] else parts[0] + [c] + Join(parts[1..], c)
  }

  /** `Array.prototype.pop` read as a value: the last element. */
  function Last<T>(s: seq<T>): T
    requires |s| > 0
  {
    s[|s| - 1]
  }

  lemma LastAppend<T>(a: seq<T>, b: seq<T>)
    requires b != []
    ensures Last(a + b) == Last(b)
  {
  }

  /** Splitting and joining with the same separator gives back the string. */
  lemma {:induction false} JoinSplit(s: string, c: char)
    ensures Join(Split(s, c), c) == s
  {
    if s != [] {
      JoinSplit(s[1..], c);
      SplitStep(s, c);
      if s[0] == c {
        JoinSplitAtSeparator(s, c);
      } else {
        JoinSplitAtChar(s, c);
      }
    }
  }

  /** The inductive step of `JoinSplit` when the string starts with the separator. */
  lemma JoinSplitAtSeparator(s: string, c: char)
    requires s != [] && s[0] == c && Join(Split(s[1..], c), c) == s[1..]
    requires Split(s, c) == [[]] + Split(s[1..], c)
    ensures Join(Split(s, c), c) == s
  {
    JoinFront([], Split(s[1..], c), c);
    assert s == [c] + s[1..];
  }

  /** The inductive step of `JoinSplit` when it does not. */
  lemma JoinSplitAtChar(s: string, c: char)
    requires s != [] && s[0] != c && Join(Split(s[1..], c), c) == s[1..]
    requires Split(s, c) == [[s[0]] + Split(s[1..], c)[0]] + Split(s[1..], c)[1..]
    ensures Join(Split(s, c), c) == s
  {
    var t := Split(s[1..], c);
    var head, more := t[0], t[1..];
    assert t == [head] + more;
    JoinCons(s[0], head, more, c);
    assert s == [s[0]] + s[1..];
  }

  /** Joining a list whose first part is `p`. */
  lemma JoinFront(p: string, rest: seq<string>, c: char)
    ensures Join([p] + rest, c) == if rest == [] then p else p + [c] + Join(rest, c)
  {
    assert ([p] + rest)[1..] == rest;
  }

  /** A character put in front of the first part comes out in front of the join. */
  lemma JoinCons(x: char, head: string, more: seq<string>, c: char)
    ensures Join([[x] + head] + more, c) == [x] + Join([head] + more, c)
  {
    JoinFront([x] + head, more, c);
    JoinFront(head, more, c);
    if more != [] {
      var j := Join(more, c);
      assert ([x] + head) + [c] + j == [x] + (head + [c] + j);
    }
  }

  /** One step of `Split`: the first character either ends the first part or joins it. */
  lemma SplitStep(s: string, c: char)
    requires s != []
    ensures s[0] == c ==> Split(s, c) == [[]] + Split(s[1..], c)
    ensures s[0] != c ==> Split(s, c) == [[s[0]] + Split(s[1..], c)[0]] + Split(s[1..], c)[1..]
  {
  }

  /** The last part of a split is the suffix after the last separator. */
  lemma {:induction false} LastSplit(s: string, c: char)
    ensures var l := Last(Split(s, c));
      && c !in l && |l| <= |s| && s[|s| - |l|..] == l
      && (c in s ==> |l| < |s| && s[|s| - |l| - 1] == c)
      && (c !in s ==> l == s)
  {
    if c !in s {
      SplitWithout(s, c);
    } else {
      var tail := s[1..];
      var l := Last(Split(tail, c));
      LastSplit(tail, c);
      LastSplitStep(s, c);
      SuffixOfTail(s, l);
      if c in tail {
        assert s[|s| - |l| - 1] == tail[|tail| - |l| - 1];
      } else {
        assert |l| == |tail|;
      }
    }
  }

  /** A suffix of the tail is a suffix of the whole. */
  lemma SuffixOfTail(s: string, l: string)
    requires s != [] && |l| <= |s| - 1 && s[1..][|s| - 1 - |l|..] == l
    ensures s[|s| - |l|..] == l
  {
    assert s[|s| - |l|..] == s[1..][|s| - 1 - |l|..];
  }

  /** Dropping the first character keeps the last part of a split, unless
      the string has no separator at all. */
  lemma LastSplitStep(s: string, c: char)
    requires s != [] && c in s
    ensures Last(Split(s, c)) == Last(Split(s[1..], c))
  {
    var t := Split(s[1..], c);
    SplitStep(s, c);
    if s[0] == c {
      LastAppend([[]], t);
    } else {
      assert c in s[1..] by {
        var i :| 0 <= i < |s| && s[i] == c;
        assert s[1..][i - 1] == c;
      }
      assert |t| > 1;
      LastAppend([[s[0]] + t[0]], t[1..]);
    }
  }

  /** A string without the separator splits into itself. */
  lemma SplitWithout(a: string, c: char)
    requires c !in a
    ensures Split(a, c) == [a]
  {
    JoinSplit(a, c);
  }

  /** A separator after a separator-free prefix cuts exactly there. */
  lemma {:induction false} SplitAfter(a: string, b: string, c: char)
    requires c !in a
    ensures Split(a + [c] + b, c) == [a] + Split(b, c)
  {
    if a == [] {
      assert a + [c] + b == [c] + b;
    } else {
      var s := a + [c] + b;
      SplitAfter(a[1..], b, c);
      assert s[1..] == a[1..] + [c] + b;
      assert s[0] == a[0] && a[0] != c;
      SplitStep(s, c);
      assert [a[0]] + a[1..] == a;
    }
  }

  /** ASCII `toLowerCase` of one character; other characters are unchanged. */
  function LowerChar(c: char): char {
    if 'A' <= c <= 'Z' then (c as int + 32) as char else c
  }

  /** `s.toLowerCase()` restricted to ASCII letters. */
  function ToLower(s: string): (r: string)
    ensures |r| == |s|
    ensures forall i :: 0 <= i < |s| ==> r[i] == LowerChar(s[i])
  {
    if s == [] then [] else [LowerChar(s[0])] + ToLower(s[1..])
  }

  /** Lower-casing twice is lower-casing once. */
  lemma ToLowerIdempotent(s: string)
    ensures ToLower(ToLower(s)) == ToLower(s)
  {
    var r := ToLower(s);
    assert forall i :: 0 <= i < |s| ==> ToLower(r)[i] == r[i];
  }

  /** One decimal digit. */
  function Digit(d: nat): char
    requires d < 10
  {
    "0123456789"[d]
  }

  predicate IsDigit(c: char) {
    '0' <= c <= '9'
  }

  /** Number-to-string conversion of a count, as in a template literal. */
  function NatToString(n: nat): (r: string)
    ensures |r| >= 1
    ensures forall i :: 0 <= i < |r| ==> IsDigit(r[i])
    ensures r[0] == '0' ==> n == 0 && r == "0"
  {
    if n < 10 then [Digit(n)] else NatToString(n / 10) + [Digit(n % 10)]
  }

  /** The value a string of decimal digits denotes. */
  function DecimalValue(d: string): nat
    requires forall i :: 0 <= i < |d| ==> IsDigit(d[i])
  {
    if d == [] then 0
    else
      assert IsDigit(d[|d| - 1]);
      DecimalValue(d[..|d| - 1]) * 10 + (d[|d| - 1] as int - '0' as int)
  }

  /** The rendered count reads back as the count. */
  lemma {:induction false} DecimalRoundTrip(n: nat)
    ensures DecimalValue(NatToString(n)) == n
  {
    if n >= 10 {
      var q, d := n / 10, n % 10;
      DecimalRoundTrip(q);
      var r := NatToString(n);
      assert r == NatToString(q) + [Digit(d)];
      assert r[..|r| - 1] == NatToString(q);
      DigitValue(d);
      assert DecimalValue(r) == DecimalValue(NatToString(q)) * 10 + d;
    }
  }

  /** A digit reads back as its value. */
  lemma DigitValue(d: nat)
    requires d < 10
    ensures Digit(d) as int - '0' as int == d
  {
  }
}
