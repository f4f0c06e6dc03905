/** `escapeHtml` (RunnerServer.java:190-193): the three chained
    `String.replace` calls, and what they guarantee about the page the echo
    endpoint builds around a request body. */
module Html {

  /** `s.replace(target, replacement)`: every occurrence of `target`, found
      scanning left to right without overlaps, is replaced. */
  function Replace(s: string, target: string, replacement: string): string
    requires |target| > 0
    decreases |s|
  {
    if |s| == 0 then ""
    else if |target| <= |s| && s[..|target|] == target then
      replacement + Replace(s[|target|..], target, replacement)
    else [s[0]] + Replace(s[1..], target, replacement)
  }

  /** `escapeHtml(s)` for a non-null `s`: `&` first, then `<`, then `>`. */
  function EscapeHtml(s: string): string
  {
    Replace(Replace(Replace(s, "&", "&amp;"), "<", "&lt;"), ">", "&gt;")
  }

  /** The replacements undone in reverse order, `&amp;` last. */
  function UnescapeHtml(s: string): string
  {
    Replace(Replace(Replace(s, "&gt;", ">"), "&lt;", "<"), "&amp;", "&")
  }

  // ---------------------------------------------------------------------
  // A character-by-character description of the escaping

  const Specials: set<char> := {'&', '<', '>'}

  /** The entity that stands for a special character. */
  function Entity(c: char): string
  {
    if c == '&' then "&amp;" else if c == '<' then "&lt;" else if c == '>' then "&gt;" else [c]
  }

  /** `s` with every character of `k` replaced by its entity. */
  function EscapeSet(s: string, k: set<char>): string
  {
    if s == [] then []
    else (if s[0] in k then Entity(s[0]) else [s[0]]) + EscapeSet(s[1..], k)
  }

  lemma {:induction false} EscapeNothing(s: string)
    ensures EscapeSet(s, {}) == s
  {
    if s != [] {
      EscapeNothing(s[1..]);
      assert s == [s[0]] + s[1..];
    }
  }

  lemma {:induction false} ReplaceCharConcat(x: string, y: string, c: char, r: string)
    ensures Replace(x + y, [c], r) == Replace(x, [c], r) + Replace(y, [c], r)
  {
    if x == [] {
      assert x + y == y;
    } else {
      assert (x + y)[0] == x[0] && (x + y)[1..] == x[1..] + y;
      assert (x + y)[..1] == [x[0]] && x[..1] == [x[0]];
      ReplaceCharConcat(x[1..], y, c, r);
    }
  }

  /** Text in which the target cannot start is copied by Replace. */
  lemma {:induction false} ReplaceSkip(x: string, y: string, t: string, r: string)
    requires |t| > 0 && t[0] !in x
    ensures Replace(x + y, t, r) == x + Replace(y, t, r)
  {
    if x == [] {
      assert x + y == y;
    } else {
      assert (x + y)[0] == x[0] && (x + y)[1..] == x[1..] + y;
      ReplaceSkip(x[1..], y, t, r);
    }
  }

  /** The chunk one character contributes, before and after escaping `c`. */
  lemma ChunkStep(x: char, k: set<char>, c: char)
    requires c in Specials && c !in k && k <= Specials
    requires c == '&' ==> k == {}
    ensures Replace(if x in k then Entity(x) else [x], [c], Entity(c))
         == if x in k + {c} then Entity(x) else [x]
  {
    var chunk := if x in k then Entity(x) else [x];
    if x == c {
      assert chunk == [c] && [c][..1] == [c];
    } else {
      assert c !in chunk;
      ReplaceSkip(chunk, [], [c], Entity(c));
      assert chunk + [] == chunk;
    }
  }

  /** Replacing one special character takes an escaping of the set `k` to
      the escaping of `k` plus that character, provided no entity already
      present contains it (so `&` must go first). */
  lemma {:induction false} EscapeStep(s: string, k: set<char>, c: char)
    requires c in Specials && c !in k && k <= Specials
    requires c == '&' ==> k == {}
    ensures Replace(EscapeSet(s, k), [c], Entity(c)) == EscapeSet(s, k + {c})
  {
    if s != [] {
      var chunk := if s[0] in k then Entity(s[0]) else [s[0]];
      var rest := EscapeSet(s[1..], k);
      ReplaceCharConcat(chunk, rest, c, Entity(c));
      ChunkStep(s[0], k, c);
      EscapeStep(s[1..], k, c);
    }
  }

  /** The source's escaping is the character-by-character one. */
  lemma EscapeHtmlCharwise(s: string)
    ensures EscapeHtml(s) == EscapeSet(s, Specials)
  {
    EscapeNothing(s);
    EscapeStep(s, {}, '&');
    assert {} + {'&'} == {'&'};
    EscapeStep(s, {'&'}, '<');
    assert {'&'} + {'<'} == {'&', '<'};
    EscapeStep(s, {'&', '<'}, '>');
    assert {'&', '<'} + {'>'} == Specials;
  }

  /** The target found at the front is replaced. */
  lemma ReplaceHit(t: string, rest: string, r: string)
    requires |t| > 0
    ensures Replace(t + rest, t, r) == r + Replace(rest, t, r)
  {
    assert (t + rest)[..|t|] == t;
    assert (t + rest)[|t|..] == rest;
  }

  /** An entity other than the target is copied whole: both start with `&`
      but differ in their second character, and no other `&` follows. */
  lemma ReplaceMissEntity(e: string, rest: string, t: string, r: string)
    requires |e| >= 2 && |t| >= 2 && e[0] == '&' == t[0] && e[1] != t[1]
    requires '&' !in e[1..]
    ensures Replace(e + rest, t, r) == e + Replace(rest, t, r)
  {
    var x := e + rest;
    assert x[1] == e[1];
    assert |t| <= |x| ==> x[..|t|][1] == e[1];
    assert !(|t| <= |x| && x[..|t|] == t);
    assert x[1..] == e[1..] + rest;
    ReplaceSkip(e[1..], rest, t, r);
    assert [x[0]] + e[1..] == e;
  }

  /** Undoing one entity takes the escaping of `k` to that of `k` without
      the character, as long as `&` is still escaped (so that no literal `&`
      of the input can start a match). */
  lemma {:induction false} UnescapeStep(s: string, k: set<char>, d: char)
    requires '&' in k && d in k && k <= Specials
    ensures Replace(EscapeSet(s, k), Entity(d), [d]) == EscapeSet(s, k - {d})
  {
    if s != [] {
      var t := Entity(d);
      var c := s[0];
      var chunk := if c in k then Entity(c) else [c];
      var rest := EscapeSet(s[1..], k);
      UnescapeStep(s[1..], k, d);
      assert EscapeSet(s, k) == chunk + rest;
      if c == d {
        ReplaceHit(t, rest, [d]);
      } else if c in k {
        ReplaceMissEntity(chunk, rest, t, [d]);
      } else {
        ReplaceSkip(chunk, rest, t, [d]);
      }
    }
  }

  /** Reversing the replacements, `&amp;` last, recovers the input. */
  lemma UnescapeEscape(s: string)
    ensures UnescapeHtml(EscapeHtml(s)) == s
  {
    EscapeHtmlCharwise(s);
    UnescapeStep(s, Specials, '>');
    assert Specials - {'>'} == {'&', '<'};
    UnescapeStep(s, {'&', '<'}, '<');
    assert {'&', '<'} - {'<'} == {'&'};
    UnescapeStep(s, {'&'}, '&');
    assert {'&'} - {'&'} == {};
    EscapeNothing(s);
  }

  /** Different bodies give different escaped text. */
  lemma EscapeHtmlInjective(a: string, b: string)
    requires EscapeHtml(a) == EscapeHtml(b)
    ensures a == b
  {
    UnescapeEscape(a);
    UnescapeEscape(b);
  }

  /** An `&` at position i of `t` begins one of the three entities. */
  predicate EntityAt(t: string, i: int)
    requires 0 <= i < |t|
  {
    || (i + 5 <= |t| && t[i..i + 5] == "&amp;")
    || (i + 4 <= |t| && t[i..i + 4] == "&lt;")
    || (i + 4 <= |t| && t[i..i + 4] == "&gt;")
  }

  /** The escaped text is safe to embed: it has no `<` or `>`, and each `&`
      in it begins `&amp;`, `&lt;` or `&gt;`. */
  predicate SafeText(t: string)
  {
    && '<' !in t && '>' !in t
    && forall i :: 0 <= i < |t| && t[i] == '&' ==> EntityAt(t, i)
  }

  /** An entity found in `rest` is still one after a prefix. */
  lemma EntityAtShift(x: string, rest: string, j: nat)
    requires j < |rest| && EntityAt(rest, j)
    ensures EntityAt(x + rest, |x| + j)
  {
    var t := x + rest;
    var i := |x| + j;
    if j + 5 <= |rest| {
      assert t[i..i + 5] == rest[j..j + 5];
    }
    if j + 4 <= |rest| {
      assert t[i..i + 4] == rest[j..j + 4];
    }
  }

  /** The entity of a special character begins an entity. */
  lemma EntityAtFront(c: char, rest: string)
    requires c in Specials
    ensures EntityAt(Entity(c) + rest, 0)
  {
    var e := Entity(c);
    assert (e + rest)[..|e|] == e;
  }

  /** The first `&` of the chunk for one character is the entity's own. */
  lemma ChunkAmp(c: char, rest: string, i: nat)
    requires i < |Entity(c)| && (Entity(c) + rest)[i] == '&'
    ensures i == 0 && c in Specials
  {
  }

  /** Each `&` of `Entity(c) + rest` begins an entity when those of `rest` do. */
  lemma AmpsCons(c: char, rest: string)
    requires forall j :: 0 <= j < |rest| && rest[j] == '&' ==> EntityAt(rest, j)
    ensures var t := Entity(c) + rest;
      forall i :: 0 <= i < |t| && t[i] == '&' ==> EntityAt(t, i)
  {
    var chunk := Entity(c);
    var t := chunk + rest;
    forall i | 0 <= i < |t| && t[i] == '&' ensures EntityAt(t, i) {
      if i < |chunk| {
        ChunkAmp(c, rest, i);
        EntityAtFront(c, rest);
      } else {
        assert rest[i - |chunk|] == '&';
        EntityAtShift(chunk, rest, i - |chunk|);
      }
    }
  }

  lemma NoBracketsCons(c: char, rest: string)
    requires '<' !in rest && '>' !in rest
    ensures '<' !in Entity(c) + rest && '>' !in Entity(c) + rest
  {
  }

  lemma {:induction false} EscapeSetSafe(s: string)
    ensures SafeText(EscapeSet(s, Specials))
  {
    if s != [] {
      EscapeSetSafe(s[1..]);
      var rest := EscapeSet(s[1..], Specials);
      assert EscapeSet(s, Specials) == Entity(s[0]) + rest;
      AmpsCons(s[0], rest);
      NoBracketsCons(s[0], rest);
    }
  }

  lemma EscapeHtmlSafe(s: string)
    ensures SafeText(EscapeHtml(s))
  {
    EscapeHtmlCharwise(s);
    EscapeSetSafe(s);
  }

  /** Each `&` grows by four characters, each `<` and `>` by three. */
  lemma {:induction false} EscapeSetLength(s: string)
    ensures |EscapeSet(s, Specials)|
         == |s| + 4 * multiset(s)['&'] + 3 * multiset(s)['<'] + 3 * multiset(s)['>']
  {
    if s != [] {
      EscapeSetLength(s[1..]);
      assert s == [s[0]] + s[1..];
      assert multiset(s) == multiset([s[0]]) + multiset(s[1..]);
    }
  }

  lemma EscapeHtmlLength(s: string)
    ensures |EscapeHtml(s)|
         == |s| + 4 * multiset(s)['&'] + 3 * multiset(s)['<'] + 3 * multiset(s)['>']
  {
    EscapeHtmlCharwise(s);
    EscapeSetLength(s);
  }
}
