/** The `java.lang.String` and `java.lang.Integer` operations the request
    handler relies on: `indexOf`, `split`, `trim`, the ASCII part of
    `toLowerCase` / `equalsIgnoreCase`, `Integer.toString` and
    `Integer.parseInt`. */
module Text {
  import opened Wrappers

  // ---------------------------------------------------------------------
  // Searching and splitting

  /** `s.indexOf(c)`: the position of the first `c`, or None for -1. */
  function IndexOf(s: string, c: char): (r: Option<nat>)
    ensures r.None? <==> c !in s
    ensures r.Some? ==> r.value < |s| && s[r.value] == c && c !in s[..r.value]
  {
    if |s| == 0 then None
    else if s[0] == c then Some(0)
    else match IndexOf(s[1..], c)
      case None => None
      case Some(i) =>
        assert s[..i + 1] == [s[0]] + s[1..][..i];
        Some(i + 1)
  }

  /** The text before the first `c` (all of `s` when there is none). */
  function TakeUntil(s: string, c: char): (r: string)
    ensures c !in r
    ensures |r| <= |s| && r == s[..|r|]
    ensures |r| < |s| ==> s[|r|] == c
  {
    match IndexOf(s, c)
    case None => s
    case Some(i) => s[..i]
  }

  lemma TakeUntilNone(s: string, c: char)
    requires c !in s
    ensures TakeUntil(s, c) == s
  {
  }

  /** The first `c` of `a c b` is the one after `a`. */
  lemma {:induction false} IndexOfFirst(a: string, b: string, c: char)
    requires c !in a
    ensures IndexOf(a + [c] + b, c) == Some(|a|)
  {
    var s := a + [c] + b;
    if a != [] {
      assert s[0] == a[0] && s[1..] == a[1..] + [c] + b;
      IndexOfFirst(a[1..], b, c);
    }
  }

  lemma TakeUntilFirst(a: string, b: string, c: char)
    requires c !in a
    ensures TakeUntil(a + [c] + b, c) == a
  {
    IndexOfFirst(a, b, c);
    assert (a + [c] + b)[..|a|] == a;
  }

  /** Cutting `s` at every `c`, keeping every piece (empty ones included). */
  function Split(s: string, c: char): (r: seq<string>)
    ensures |r| >= 1
    decreases |s|
  {
    match IndexOf(s, c)
    case None => [s]
    case Some(i) => [s[..i]] + Split(s[i + 1..], c)
  }

  /** No piece holds the separator, and the first is the text before the
      first separator. */
  lemma {:induction false} SplitPieces(s: string, c: char)
    ensures forall i :: 0 <= i < |Split(s, c)| ==> c !in Split(s, c)[i]
    ensures Split(s, c)[0] == TakeUntil(s, c)
    decreases |s|
  {
    match IndexOf(s, c)
    case None =>
    case Some(i) =>
      SplitPieces(s[i + 1..], c);
  }

  /** The pieces glued back together with `c` between them. */
  function Join(ps: seq<string>, c: char): string
  {
    if |ps| == 0 then ""
    else if |ps| == 1 then ps[0]
    else ps[0] + [c] + Join(ps[1..], c)
  }

  /** One step of Split at the first separator. */
  lemma SplitAt(s: string, c: char, i: nat)
    requires IndexOf(s, c) == Some(i)
    ensures Split(s, c) == [s[..i]] + Split(s[i + 1..], c)
  {
  }

  lemma JoinCons(p: string, tail: seq<string>, c: char)
    requires |tail| >= 1
    ensures Join([p] + tail, c) == p + [c] + Join(tail, c)
  {
    assert ([p] + tail)[1..] == tail;
  }

  lemma Glue(s: string, c: char, i: nat)
    requires i < |s| && s[i] == c
    ensures s == s[..i] + [c] + s[i + 1..]
  {
  }

  /** Splitting loses nothing: joining the pieces gives the input back. */
  lemma {:induction false} JoinSplit(s: string, c: char)
    ensures Join(Split(s, c), c) == s
    decreases |s|
  {
    var found := IndexOf(s, c);
    if found.Some? {
      var i := found.value;
      var rest := s[i + 1..];
      JoinSplit(rest, c);
      SplitAt(s, c, i);
      JoinCons(s[..i], Split(rest, c), c);
      Glue(s, c, i);
    }
  }

  /** A string without the separator is one piece. */
  lemma SplitNone(s: string, c: char)
    requires c !in s
    ensures Split(s, c) == [s]
  {
  }

  /** The first `c` of `a` is the first of anything that extends `a`. */
  lemma {:induction false} IndexOfExtend(a: string, b: string, c: char)
    requires c in a
    ensures IndexOf(a + b, c) == IndexOf(a, c)
  {
    if a[0] != c {
      assert (a + b)[0] == a[0] && (a + b)[1..] == a[1..] + b;
      assert a == [a[0]] + a[1..];
      IndexOfExtend(a[1..], b, c);
    }
  }

  lemma {:induction false} SplitAround(a: string, b: string, c: char)
    requires c !in a
    ensures Split(a + [c] + b, c) == [a] + Split(b, c)
  {
    var s := a + [c] + b;
    assert s[|a|] == c;
    var i := IndexOf(s, c).value;
    assert s[..|a|] == a;
    assert i == |a|;
    assert s[i + 1..] == b;
  }

  lemma SplitConcatTail(a: string, b: string, c: char, i: nat)
    requires i < |a|
    ensures (a + [c] + b)[..i] == a[..i]
    ensures (a + [c] + b)[i + 1..] == a[i + 1..] + [c] + b
  {
  }

  lemma ConsAssoc(x: string, ys: seq<string>, zs: seq<string>)
    ensures [x] + ys + zs == [x] + (ys + zs)
  {
  }

  /** Splitting `a c b` gives the pieces of `a` followed by those of `b`. */
  lemma {:induction false} SplitAppend(a: string, b: string, c: char)
    ensures Split(a + [c] + b, c) == Split(a, c) + Split(b, c)
    decreases |a|
  {
    if c !in a {
      SplitAround(a, b, c);
    } else {
      var i := IndexOf(a, c).value;
      var s := a + [c] + b;
      IndexOfExtend(a, [c] + b, c);
      assert s == a + ([c] + b);
      SplitAt(s, c, i);
      SplitAt(a, c, i);
      SplitConcatTail(a, b, c, i);
      SplitAppend(a[i + 1..], b, c);
      ConsAssoc(a[..i], Split(a[i + 1..], c), Split(b, c));
    }
  }

  /** Pieces free of the separator, joined with it, split back into
      exactly those pieces. */
  lemma {:induction false} SplitJoin(ps: seq<string>, c: char)
    requires |ps| >= 1 && forall i :: 0 <= i < |ps| ==> c !in ps[i]
    ensures Split(Join(ps, c), c) == ps
    decreases |ps|
  {
    if |ps| == 1 {
      SplitNone(ps[0], c);
    } else {
      SplitJoin(ps[1..], c);
      SplitAround(ps[0], Join(ps[1..], c), c);
      assert [ps[0]] + ps[1..] == ps;
    }
  }

  /** A joined text holds no character that neither the separator nor any
      piece holds. */
  lemma {:induction false} JoinAvoids(ps: seq<string>, c: char, x: char)
    requires x != c && forall i :: 0 <= i < |ps| ==> x !in ps[i]
    ensures x !in Join(ps, c)
    decreases |ps|
  {
    if |ps| > 1 {
      JoinAvoids(ps[1..], c, x);
    }
  }

  /** Text lines, each followed by CR LF. */
  function CrlfText(ls: seq<string>): string
  {
    if ls == [] then "" else ls[0] + "\r\n" + CrlfText(ls[1..])
  }

  /** Removes trailing empty strings, as `String.split` does. */
  function DropTrailingEmpty(ps: seq<string>): (r: seq<string>)
    ensures |r| <= |ps| && r == ps[..|r|]
    ensures forall i :: |r| <= i < |ps| ==> ps[i] == ""
    ensures r == [] || r[|r| - 1] != ""
  {
    if |ps| > 0 && ps[|ps| - 1] == "" then DropTrailingEmpty(ps[..|ps| - 1]) else ps
  }

  /** `s.split(c)` for a one-character, non-meta pattern: the pieces of
      Split with trailing empty pieces removed, except that an input with
      no `c` at all yields the one-element array `{ s }` (so `""` splits
      into `{""}`). */
  function JavaSplit(s: string, c: char): (r: seq<string>)
    ensures c !in s ==> r == [s]
    ensures |r| <= |Split(s, c)| && r == Split(s, c)[..|r|]
    ensures forall i :: |r| <= i < |Split(s, c)| ==> Split(s, c)[i] == ""
    ensures c in s ==> r == [] || r[|r| - 1] != ""
    ensures forall i :: 0 <= i < |r| ==> c !in r[i]
  {
    SplitPieces(s, c);
    if c !in s then [s] else DropTrailingEmpty(Split(s, c))
  }

  /** The first piece of a `split` is the text before the first separator;
      an empty result only arises when that text is empty. */
  lemma JavaSplitFirst(s: string, c: char)
    ensures |JavaSplit(s, c)| > 0 ==> JavaSplit(s, c)[0] == TakeUntil(s, c)
    ensures |JavaSplit(s, c)| == 0 ==> TakeUntil(s, c) == "" && c in s
  {
    SplitPieces(s, c);
  }

  // ---------------------------------------------------------------------
  // Trimming and ASCII case

  /** `String.trim` removes every character whose code is at most U+0020. */
  predicate IsTrimmable(c: char)
  {
    c <= ' '
  }

  function TrimStart(s: string): (r: string)
    ensures |r| <= |s| && r == s[|s| - |r|..]
    ensures forall i :: 0 <= i < |s| - |r| ==> IsTrimmable(s[i])
    ensures r == [] || !IsTrimmable(r[0])
  {
    if |s| > 0 && IsTrimmable(s[0]) then TrimStart(s[1..]) else s
  }

  function TrimEnd(s: string): (r: string)
    ensures |r| <= |s| && r == s[..|r|]
    ensures forall i :: |r| <= i < |s| ==> IsTrimmable(s[i])
    ensures r == [] || !IsTrimmable(r[|r| - 1])
  {
    if |s| > 0 && IsTrimmable(s[|s| - 1]) then TrimEnd(s[..|s| - 1]) else s
  }

  /** `s.trim()`: the middle of `s` once the characters at most U+0020 are
      taken off both ends. */
  function Trim(s: string): (r: string)
  {
    TrimEnd(TrimStart(s))
  }

  predicate IsTrimmed(s: string)
  {
    s == [] || (!IsTrimmable(s[0]) && !IsTrimmable(s[|s| - 1]))
  }

  predicate AllTrimmable(s: string)
  {
    forall k :: 0 <= k < |s| ==> IsTrimmable(s[k])
  }

  lemma {:induction false} TrimStartPadded(pad: string, x: string)
    requires AllTrimmable(pad) && (x == [] || !IsTrimmable(x[0]))
    ensures TrimStart(pad + x) == x
    decreases |pad|
  {
    if pad != [] {
      assert (pad + x)[1..] == pad[1..] + x;
      TrimStartPadded(pad[1..], x);
    } else {
      assert pad + x == x;
    }
  }

  lemma {:induction false} TrimEndPadded(x: string, pad: string)
    requires AllTrimmable(pad) && (x == [] || !IsTrimmable(x[|x| - 1]))
    ensures TrimEnd(x + pad) == x
    decreases |pad|
  {
    if pad != [] {
      var init := pad[..|pad| - 1];
      assert (x + pad)[..|x + pad| - 1] == x + init;
      TrimEndPadded(x, init);
    } else {
      assert x + pad == x;
    }
  }

  /** `trim` takes off exactly the blanks around a trimmed text. */
  lemma TrimPadded(before: string, m: string, after: string)
    requires AllTrimmable(before) && AllTrimmable(after) && IsTrimmed(m)
    ensures Trim(before + m + after) == m
  {
    assert before + m + after == before + (m + after);
    if m == [] {
      TrimStartPadded(before + after, []);
      assert before + after + [] == before + after;
      TrimEndPadded([], []);
    } else {
      assert (m + after)[0] == m[0];
      TrimStartPadded(before, m + after);
      TrimEndPadded(m, after);
    }
  }

  /** Where the trimmed text starts inside the original. */
  function TrimOffset(s: string): (i: nat)
    ensures i <= |s|
  {
    |s| - |TrimStart(s)|
  }

  /** Trim keeps a contiguous slice of its input, drops only trimmable
      characters, and leaves nothing further to trim. */
  lemma SliceOfSuffix(s: string, i: nat, m: nat)
    requires i + m <= |s|
    ensures s[i..][..m] == s[i..i + m]
  {
  }

  /** What TrimEnd drops from a suffix of `s` is trimmable in `s` too. */
  lemma TrimEndTail(s: string, i: nat)
    requires i <= |s|
    ensures forall k :: i + |TrimEnd(s[i..])| <= k < |s| ==> IsTrimmable(s[k])
  {
    var a := s[i..];
    var m := |TrimEnd(a)|;
    forall k | i + m <= k < |s| ensures IsTrimmable(s[k]) {
      assert s[k] == a[k - i];
    }
  }

  lemma TrimmedEnds(a: string)
    requires a == [] || !IsTrimmable(a[0])
    ensures IsTrimmed(TrimEnd(a))
  {
    var b := TrimEnd(a);
    if b != [] {
      assert b[0] == a[0];
    }
  }

  lemma TrimSlice(s: string)
    ensures IsTrimmed(Trim(s))
    ensures TrimOffset(s) + |Trim(s)| <= |s|
    ensures Trim(s) == s[TrimOffset(s)..TrimOffset(s) + |Trim(s)|]
    ensures forall k :: 0 <= k < TrimOffset(s) ==> IsTrimmable(s[k])
    ensures forall k :: TrimOffset(s) + |Trim(s)| <= k < |s| ==> IsTrimmable(s[k])
  {
    var a := TrimStart(s);
    var i := TrimOffset(s);
    assert a == s[i..];
    SliceOfSuffix(s, i, |TrimEnd(a)|);
    TrimEndTail(s, i);
    TrimmedEnds(a);
  }

  /** The ASCII part of `Character.toLowerCase`. */
  function LowerChar(c: char): char
  {
    if 'A' <= c <= 'Z' then (c as int + 32) as char else c
  }

  predicate IsUpper(c: char)
  {
    'A' <= c <= 'Z'
  }

  /** `s.toLowerCase(Locale.ROOT)` where `s` is ASCII. */
  function ToLower(s: string): (r: string)
    ensures |r| == |s|
    ensures forall i :: 0 <= i < |r| ==> !IsUpper(r[i])
    ensures forall i :: 0 <= i < |r| ==> !IsUpper(s[i]) ==> r[i] == s[i]
  {
    seq(|s|, i requires 0 <= i < |s| => LowerChar(s[i]))
  }

  /** `a.equalsIgnoreCase(b)` on ASCII text: same length, and each pair of
      characters is equal after folding to lower case. */
  predicate EqualsIgnoreCase(a: string, b: string)
  {
    |a| == |b| && forall i :: 0 <= i < |a| ==> LowerChar(a[i]) == LowerChar(b[i])
  }

  /** Folding case does not change whether two strings match. */
  lemma EqualsIgnoreCaseLower(a: string, b: string)
    ensures EqualsIgnoreCase(a, b) <==> ToLower(a) == ToLower(b)
  {
    if ToLower(a) == ToLower(b) {
      assert forall i :: 0 <= i < |a| ==> ToLower(a)[i] == LowerChar(a[i]);
    }
  }

  // ---------------------------------------------------------------------
  // Decimal integers

  const IntMin: int := -0x8000_0000
  const IntMax: int := 0x7FFF_FFFF

  predicate IsDigit(c: char)
  {
    '0' <= c <= '9'
  }

  predicate AllDigits(s: string)
  {
    forall i :: 0 <= i < |s| ==> IsDigit(s[i])
  }

  function DigitChar(d: nat): char
    requires d < 10
  {
    ('0' as int + d) as char
  }

  /** The number a string of decimal digits denotes. */
  function DigitsValue(s: string): nat
    requires AllDigits(s)
  {
    if s == [] then 0
    else DigitsValue(s[..|s| - 1]) * 10 + (s[|s| - 1] as int - '0' as int)
  }

  /** `Integer.toString` of a non-negative number: shortest decimal form. */
  function NatToString(n: nat): (r: string)
    ensures |r| > 0 && AllDigits(r)
    ensures r[0] == '0' ==> n == 0
  {
    if n < 10 then [DigitChar(n)] else NatToString(n / 10) + [DigitChar(n % 10)]
  }

  /** `Integer.toString(n)`; also what string concatenation prints, and what
      `%d` prints under a format locale with ASCII digits. */
  function IntToString(n: int): (r: string)
  {
    if n < 0 then "-" + NatToString(-n) else NatToString(n)
  }

  /** A printed int has nothing for `trim` to take off. */
  lemma IntToStringTrimmed(n: int)
    ensures IsTrimmed(IntToString(n))
  {
    var d := if n < 0 then NatToString(-n) else NatToString(n);
    assert IsDigit(d[0]) && IsDigit(d[|d| - 1]);
  }

  /** `Integer.parseInt(s)`: an optional `+` or `-`, then one or more
      decimal digits, denoting a value in the 32-bit range; anything else
      is a NumberFormatException, here None. */
  function ParseInt(s: string): (r: Option<int>)
    ensures r.Some? ==> IntMin <= r.value <= IntMax
    ensures r.Some? ==> |s| > 0
  {
    if |s| == 0 then None
    else
      var signed := s[0] == '-' || s[0] == '+';
      var digits := if signed then s[1..] else s;
      if |digits| == 0 || !AllDigits(digits) then None
      else
        var d: int := DigitsValue(digits);
        var v := if s[0] == '-' then -d else d;
        if IntMin <= v <= IntMax then Some(v) else None
  }

  lemma {:induction false} DigitsValueOfNat(n: nat)
    ensures DigitsValue(NatToString(n)) == n
  {
    if n >= 10 {
      DigitsValueOfNat(n / 10);
      var s := NatToString(n);
      assert s[..|s| - 1] == NatToString(n / 10);
    }
  }

  /** Printing an int and parsing it back is the identity on the 32-bit
      range: `Integer.parseInt(Integer.toString(n)) == n`. */
  lemma ParseIntToString(n: int)
    requires IntMin <= n <= IntMax
    ensures ParseInt(IntToString(n)) == Some(n)
  {
    var s := IntToString(n);
    if n < 0 {
      DigitsValueOfNat(-n);
      assert s[1..] == NatToString(-n);
    } else {
      DigitsValueOfNat(n);
    }
  }

  /** The printed form of an int contains none of the characters that
      separate fields on the wire and in the log. */
  lemma IntToStringPlain(n: int)
    ensures |IntToString(n)| > 0
    ensures ' ' !in IntToString(n) && '\r' !in IntToString(n) && '\n' !in IntToString(n)
  {
    var s := IntToString(n);
    if n < 0 {
      assert forall i :: 1 <= i < |s| ==> s[i] == NatToString(-n)[i - 1];
    }
  }
}
