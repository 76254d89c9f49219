/**
 * String helpers with the semantics of the Python built-ins the modelled code uses:
 * `str.split(sep)`, `sep.join(parts)`, `str.split(sep, 1)`, `str(n)` for a
 * non-negative integer, ASCII `str.lower()` and Python's lexicographic ordering of strings.
 */
module Text {

  /** Index of the first `c` in `s`, or `|s|` when there is none. */
  function IndexOf(s: string, c: char): (i: nat)
    ensures i <= |s|
    ensures i < |s| ==> s[i] == c
    ensures c !in s[..i]
    ensures i == |s| <==> c !in s
  {
    IndexFrom(s, c, 0)
  }

  /** The scan behind `IndexOf`: the first `c` at or after `k`, knowing there is none before. */
  function IndexFrom(s: string, c: char, k: nat): (i: nat)
    requires k <= |s| && c !in s[..k]
    ensures k <= i <= |s|
    ensures i < |s| ==> s[i] == c
    ensures c !in s[..i]
    ensures i == |s| <==> c !in s
    decreases |s| - k
  {
    if k == |s| then
      assert s[..k] == s;
      k
    else if s[k] == c then k
    else
      assert s[..k + 1] == s[..k] + [s[k]];
      IndexFrom(s, c, k + 1)
  }

  /** Index of the last `c` in `s`; Python's `s.rindex(c)`. */
  function LastIndexOf(s: string, c: char): (i: nat)
    requires c in s
    ensures i < |s| && s[i] == c
    ensures c !in s[i + 1..]
    decreases |s|
  {
    var j := IndexOf(s, c);
    var t := s[j + 1..];
    if c in t then
      var k := LastIndexOf(t, c);
      assert t[k + 1..] == s[j + 1 + k + 1..];
      j + 1 + k
    else j
  }

  /** Python's `s.split(c)` for a one-character separator: every occurrence splits, empty pieces are kept. */
  function Split(s: string, c: char): (r: seq<string>)
    ensures |r| >= 1
    decreases |s|
  {
    var i := IndexOf(s, c);
    if i == |s| then [s] else [s[..i]] + Split(s[i + 1..], c)
  }

  /** Python's `c.join(parts)`. */
  function Join(parts: seq<string>, c: char): string
  {
    if |parts| == 0 then ""
    else if |parts| == 1 then parts[0]
    else parts[0] + [c] + Join(parts[1..], c)
  }

  /** Python's `s.split(c, 1)`: at most one split, at the first `c`. */
  function SplitOnce(s: string, c: char): (r: seq<string>)
    ensures 1 <= |r| <= 2
    ensures |r| == 1 <==> c !in s
    ensures |r| == 1 ==> r[0] == s
    ensures |r| == 2 ==> c !in r[0] && r[0] + [c] + r[1] == s
  {
    var i := IndexOf(s, c);
    if i == |s| then [s]
    else
      assert s == s[..i] + [c] + s[i + 1..];
      [s[..i], s[i + 1..]]
  }

  function Last<T>(xs: seq<T>): T
    requires |xs| > 0
  {
    xs[|xs| - 1]
  }

  predicate StartsWith(s: string, prefix: string)
  {
    |prefix| <= |s| && s[..|prefix|] == prefix
  }

  predicate EndsWith(s: string, suffix: string)
  {
    |suffix| <= |s| && s[|s| - |suffix|..] == suffix
  }

  /** No piece produced by `Split` contains the separator. */
  lemma {:induction false} SplitPiecesLackSeparator(s: string, c: char)
    ensures forall k :: 0 <= k < |Split(s, c)| ==> c !in Split(s, c)[k]
    decreases |s|
  {
    var i := IndexOf(s, c);
    if i < |s| {
      SplitPiecesLackSeparator(s[i + 1..], c);
      forall k | 0 <= k < |Split(s, c)| ensures c !in Split(s, c)[k] {
        if k > 0 {
          assert Split(s, c)[k] == Split(s[i + 1..], c)[k - 1];
        }
      }
    }
  }

  /** Joining the pieces of a split with the same separator gives back the string. */
  lemma {:induction false} JoinSplit(s: string, c: char)
    ensures Join(Split(s, c), c) == s
    decreases |s|
  {
    if c in s {
      JoinSplit(s[IndexOf(s, c) + 1..], c);
      JoinSplitStep(s, c);
    } else {
      SplitWithoutSeparator(s, c);
    }
  }

  /** The inductive step of `JoinSplit`: the first piece, the separator, then the rest rejoined. */
  lemma JoinSplitStep(s: string, c: char)
    requires c in s
    requires Join(Split(s[IndexOf(s, c) + 1..], c), c) == s[IndexOf(s, c) + 1..]
    ensures Join(Split(s, c), c) == s
  {
    var i := IndexOf(s, c);
    SplitAtFirst(s, c);
    JoinCons(s[..i], Split(s[i + 1..], c), c);
    Reassemble(s, i);
  }

  /** Cutting a sequence around one position and gluing the parts back gives the sequence. */
  lemma Reassemble<T>(s: seq<T>, i: nat)
    requires i < |s|
    ensures s[..i] + [s[i]] + s[i + 1..] == s
  {
  }

  /** With a separator present, `Split` cuts at its first occurrence. */
  lemma SplitAtFirst(s: string, c: char)
    requires c in s
    ensures var i := IndexOf(s, c);
            Split(s, c) == [s[..i]] + Split(s[i + 1..], c)
  {
  }

  /** Joining a piece in front of at least one more puts one separator after it. */
  lemma JoinCons(a: string, rest: seq<string>, c: char)
    requires rest != []
    ensures Join([a] + rest, c) == a + [c] + Join(rest, c)
  {
    assert ([a] + rest)[1..] == rest;
  }

  /** Splitting a string without the separator gives the string alone. */
  lemma SplitWithoutSeparator(s: string, c: char)
    requires c !in s
    ensures Split(s, c) == [s]
  {
  }

  /** Appending one more piece to a join puts one separator before it. */
  lemma {:induction false} JoinSnoc(parts: seq<string>, last: string, c: char)
    requires |parts| >= 1
    ensures Join(parts + [last], c) == Join(parts, c) + [c] + last
    decreases |parts|
  {
    if |parts| > 1 {
      JoinSnoc(parts[1..], last, c);
      assert (parts + [last])[1..] == parts[1..] + [last];
    }
  }

  /** A join of pieces contains the separator as soon as there are two pieces. */
  lemma {:induction false} JoinHasSeparator(parts: seq<string>, c: char)
    requires |parts| >= 2
    ensures c in Join(parts, c)
  {
    assert Join(parts, c)[|parts[0]|] == c;
  }

  /** Splitting a string whose first separator follows `a` yields `a` and the pieces of the rest. */
  lemma SplitCons(a: string, c: char, rest: string)
    requires c !in a
    ensures Split(a + [c] + rest, c) == [a] + Split(rest, c)
  {
    var s := a + [c] + rest;
    assert s[|a|] == c;
    assert IndexOf(s, c) == |a| by {
      assert forall k :: 0 <= k < |a| ==> s[k] == a[k];
    }
    assert s[..|a|] == a && s[|a| + 1..] == rest;
  }

  /** `Split` has exactly one piece when the separator is absent, and at least two otherwise. */
  lemma SplitCount(s: string, c: char)
    ensures |Split(s, c)| == 1 <==> c !in s
  {
  }

  /** What follows the last separator, found by skipping past one separator at a time. */
  ghost function AfterLast(s: string, c: char): string
    decreases |s|
  {
    if c in s then AfterLast(s[IndexOf(s, c) + 1..], c) else s
  }

  /** The last piece of a split is what follows the last separator. */
  lemma {:induction false} SplitLastAfterLast(s: string, c: char)
    ensures Last(Split(s, c)) == AfterLast(s, c)
    decreases |s|
  {
    if c in s {
      var t := s[IndexOf(s, c) + 1..];
      SplitLastAfterLast(t, c);
      LastPieceAfterFirst(s, c);
    } else {
      SplitWithoutSeparator(s, c);
    }
  }

  /** The last piece of a split is the last piece of what follows the first separator. */
  lemma LastPieceAfterFirst(s: string, c: char)
    requires c in s
    ensures Last(Split(s, c)) == Last(Split(s[IndexOf(s, c) + 1..], c))
  {
    var i := IndexOf(s, c);
    SplitAtFirst(s, c);
    LastCons(s[..i], Split(s[i + 1..], c));
  }

  /** Putting an element in front does not change the last one. */
  lemma LastCons<T>(a: T, rest: seq<T>)
    requires rest != []
    ensures Last([a] + rest) == Last(rest)
  {
  }

  /** Dropping `i` and then `j` elements drops `i + j`. */
  lemma DropDrop<T>(s: seq<T>, i: nat, j: nat, k: nat)
    requires i + j == k <= |s|
    ensures s[i..][j..] == s[k..]
  {
  }

  /** A separator with none after it is the last one. */
  lemma LastIndexNoLater(s: string, c: char, i: nat)
    requires i < |s| && s[i] == c && c !in s[i + 1..]
    ensures LastIndexOf(s, c) == i
  {
  }

  function DigitChar(d: nat): char
    requires d < 10
  {
    ('0' as int + d) as char
  }

  /** Python's `str(n)` for a non-negative integer: decimal digits, most significant first, no leading zeros. */
  function NatToString(n: nat): (r: string)
    ensures 1 <= |r|
    ensures forall k :: 0 <= k < |r| ==> '0' <= r[k] <= '9'
    ensures |r| > 1 ==> r[0] != '0'
    decreases n
  {
    if n < 10 then [DigitChar(n)] else NatToString(n / 10) + [DigitChar(n % 10)]
  }

  function DigitValue(ch: char): nat
    requires '0' <= ch <= '9'
  {
    ch as nat - '0' as nat
  }

  /** Reading the digits back as a decimal number. */
  function ParseDigits(s: string): nat
    requires forall k :: 0 <= k < |s| ==> '0' <= s[k] <= '9'
  {
    if s == [] then 0 else 10 * ParseDigits(s[..|s| - 1]) + DigitValue(s[|s| - 1])
  }

  /** `NatToString` loses nothing: the digits read back as the number. */
  lemma {:induction false} NatToStringRoundTrip(n: nat)
    ensures ParseDigits(NatToString(n)) == n
    decreases n
  {
    if n >= 10 {
      NatToStringRoundTrip(n / 10);
      var s := NatToString(n);
      assert s == NatToString(n / 10) + [DigitChar(n % 10)];
      assert s[..|s| - 1] == NatToString(n / 10);
      assert DigitValue(s[|s| - 1]) == n % 10;
    }
  }

  /** ASCII lower-casing of one character; other characters are unchanged. */
  function LowerChar(ch: char): char
  {
    if 'A' <= ch <= 'Z' then (ch as int + 32) as char else ch
  }

  /** Python's `s.lower()` restricted to ASCII letters. */
  function ToLower(s: string): (r: string)
    ensures |r| == |s|
    ensures forall k :: 0 <= k < |s| && 'A' <= s[k] <= 'Z' ==> r[k] as int == s[k] as int + 32
    ensures forall k :: 0 <= k < |s| && !('A' <= s[k] <= 'Z') ==> r[k] == s[k]
    ensures forall k :: 0 <= k < |r| ==> !('A' <= r[k] <= 'Z')
  {
    seq(|s|, k requires 0 <= k < |s| => LowerChar(s[k]))
  }

  /** Lower-casing twice is lower-casing once. */
  lemma ToLowerIdempotent(s: string)
    ensures ToLower(ToLower(s)) == ToLower(s)
  {
    var once := ToLower(s);
    assert forall k :: 0 <= k < |once| ==> ToLower(once)[k] == once[k];
  }

  /** Python's `a <= b` on strings: lexicographic by code point. */
  predicate LexLe(a: string, b: string)
  {
    a == [] || (b != [] && (a[0] < b[0] || (a[0] == b[0] && LexLe(a[1..], b[1..]))))
  }

  lemma {:induction false} LexLeTotal(a: string, b: string)
    ensures LexLe(a, b) || LexLe(b, a)
  {
    if a != [] && b != [] && a[0] == b[0] {
      LexLeTotal(a[1..], b[1..]);
    }
  }

  lemma {:induction false} LexLeTransitive(a: string, b: string, c: string)
    requires LexLe(a, b) && LexLe(b, c)
    ensures LexLe(a, c)
  {
    if a != [] && a[0] == b[0] && b[0] == c[0] {
      LexLeTransitive(a[1..], b[1..], c[1..]);
    }
  }

  lemma {:induction false} LexLeAntisymmetric(a: string, b: string)
    requires LexLe(a, b) && LexLe(b, a)
    ensures a == b
  {
    if a != [] {
      LexLeAntisymmetric(a[1..], b[1..]);
      assert a == [a[0]] + a[1..];
      assert b == [b[0]] + b[1..];
    }
  }
}
