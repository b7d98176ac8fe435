/**
 * The string operations the tab reader relies on: Python's str.strip,
 * str.replace, and the regular-expression search and split it applies to
 * catalog phrases, flag keywords and the EOS token.
 *
 * Patterns are matched as regular expressions made of literal characters and
 * '.', where '.' stands for any character but a newline; that is the only
 * metacharacter the reader's fixed patterns contain.
 */
module Text {
  import opened Results

  /** The ASCII characters Python's str.strip() treats as whitespace. */
  predicate IsSpace(c: char)
  {
    c == ' ' || c == '\t' || c == '\n' || c == '\r' || c == '\U{0B}' || c == '\U{0C}'
    || c == '\U{1C}' || c == '\U{1D}' || c == '\U{1E}' || c == '\U{1F}'
  }

  predicate AllSpace(t: string)
  {
    forall k :: 0 <= k < |t| ==> IsSpace(t[k])
  }

  /** The first index at or after i holding a character other than whitespace, or |s|. */
  function SkipSpace(s: string, i: nat): (k: nat)
    requires i <= |s|
    ensures i <= k <= |s| && (k < |s| ==> !IsSpace(s[k]))
    ensures forall m :: i <= m < k ==> IsSpace(s[m])
    decreases |s| - i
  {
    if i == |s| || !IsSpace(s[i]) then i else SkipSpace(s, i + 1)
  }

  /** The end of s[lo..j] once its trailing whitespace is dropped. */
  function TrimEnd(s: string, lo: nat, j: nat): (k: nat)
    requires lo <= j <= |s|
    ensures lo <= k <= j && (k > lo ==> !IsSpace(s[k - 1]))
    ensures forall m :: k <= m < j ==> IsSpace(s[m])
    decreases j
  {
    if j == lo || !IsSpace(s[j - 1]) then j else TrimEnd(s, lo, j - 1)
  }

  /** s is r surrounded by whitespace only, r starting at index a. */
  predicate Surrounds(s: string, r: string, a: int)
  {
    0 <= a && a + |r| <= |s| && s[a..a + |r|] == r && AllSpace(s[..a]) && AllSpace(s[a + |r|..])
  }

  /** str.strip(): drops the whitespace at both ends and nothing else. */
  function Strip(s: string): (r: string)
    ensures r == [] || (!IsSpace(r[0]) && !IsSpace(r[|r| - 1]))
    ensures exists a :: Surrounds(s, r, a)
    ensures forall c :: c in r ==> c in s
  {
    var a := SkipSpace(s, 0);
    var b := TrimEnd(s, a, |s|);
    var r := s[a..b];
    assert AllSpace(s[..a]) && AllSpace(s[b..]);
    assert Surrounds(s, r, a);
    r
  }

  /** A string already free of leading and trailing whitespace is its own strip. */
  lemma StripStripped(s: string)
    requires s == [] || (!IsSpace(s[0]) && !IsSpace(s[|s| - 1]))
    ensures Strip(s) == s
  {
  }

  /** str.strip() is determined by its contract: a text surrounded by blanks only, and not itself starting or ending with one, is the strip. */
  lemma StripUnique(s: string, r: string, a: int)
    requires Surrounds(s, r, a)
    requires r == [] || (!IsSpace(r[0]) && !IsSpace(r[|r| - 1]))
    ensures Strip(s) == r
  {
    var k := SkipSpace(s, 0);
    if r == [] {
      assert forall m :: 0 <= m < a ==> s[..a][m] == s[m];
      assert forall m :: a <= m < |s| ==> s[a..][m - a] == s[m];
    } else {
      var e := a + |r|;
      assert s[a..e][0] == s[a] && s[a..e][|r| - 1] == s[e - 1];
      assert forall m :: 0 <= m < a ==> s[..a][m] == s[m];
      assert k == a;
      var t := TrimEnd(s, a, |s|);
      assert forall m :: e <= m < |s| ==> s[e..][m - e] == s[m];
      assert t == e;
    }
  }

  /** Blanks appended to a text do not change its strip. */
  lemma StripTrailingSpace(s: string, t: string)
    requires AllSpace(t)
    ensures Strip(s + t) == Strip(s)
  {
    var r := Strip(s);
    var a :| Surrounds(s, r, a);
    SurroundsAppend(s, t, r, a);
    StripUnique(s + t, r, a);
  }

  /** Blanks appended after a surrounded text only widen its right margin. */
  lemma SurroundsAppend(s: string, t: string, r: string, a: int)
    requires Surrounds(s, r, a) && AllSpace(t)
    ensures Surrounds(s + t, r, a)
  {
    var st := s + t;
    var e := a + |r|;
    assert st[..a] == s[..a];
    assert st[a..e] == s[a..e];
    assert forall m :: e <= m < |st| ==> st[e..][m - e] == st[m];
    assert forall m :: e <= m < |s| ==> s[e..][m - e] == s[m] == st[m];
    assert forall m :: |s| <= m < |st| ==> t[m - |s|] == st[m];
  }

  /** A pattern character matches a text character the way a regular expression does. */
  predicate CharMatches(pc: char, c: char)
  {
    if pc == '.' then c != '\n' else pc == c
  }

  /** The pattern p matches the text s at index i. */
  predicate MatchesAt(s: string, p: string, i: int)
  {
    0 <= i && i + |p| <= |s| && forall k :: 0 <= k < |p| ==> CharMatches(p[k], s[i + k])
  }

  /** A pattern without '.' is a literal string. */
  predicate Literal(p: string)
  {
    '.' !in p
  }

  lemma LiteralMatchesAt(s: string, p: string, i: int)
    requires Literal(p)
    ensures MatchesAt(s, p, i) <==> 0 <= i && i + |p| <= |s| && s[i..i + |p|] == p
  {
    if 0 <= i && i + |p| <= |s| {
      if MatchesAt(s, p, i) {
        assert forall k :: 0 <= k < |p| ==> s[i..i + |p|][k] == p[k];
      } else {
        var k :| 0 <= k < |p| && !CharMatches(p[k], s[i + k]);
        assert s[i..i + |p|][k] != p[k];
      }
    }
  }

  /** The leftmost match of p in s at or after index i, as re.search finds it. */
  function IndexFrom(s: string, p: string, i: nat): (r: Option<nat>)
    ensures r.Some? ==> i <= r.value && MatchesAt(s, p, r.value)
    ensures r.Some? ==> forall k :: i <= k < r.value ==> !MatchesAt(s, p, k)
    ensures r.None? ==> forall k :: i <= k ==> !MatchesAt(s, p, k)
    decreases |s| - i
  {
    if i + |p| > |s| then None
    else if MatchesAt(s, p, i) then Some(i)
    else IndexFrom(s, p, i + 1)
  }

  /** The leftmost match of p in s. */
  function Find(s: string, p: string): (r: Option<nat>)
    ensures r.Some? ==> MatchesAt(s, p, r.value) && forall k :: 0 <= k < r.value ==> !MatchesAt(s, p, k)
    ensures r.None? <==> forall k :: !MatchesAt(s, p, k)
  {
    IndexFrom(s, p, 0)
  }

  /** re.search(p, s) succeeds. */
  predicate Contains(s: string, p: string)
  {
    Find(s, p).Some?
  }

  lemma ContainsIff(s: string, p: string)
    ensures Contains(s, p) <==> exists k :: MatchesAt(s, p, k)
  {
  }

  /**
   * ''.join(re.split(p, s)): every match of p, scanning left to right and
   * never overlapping a match already taken, is cut out of s.
   */
  function RemoveAll(s: string, p: string): (r: string)
    requires p != []
    ensures |r| <= |s|
    ensures forall c :: c in r ==> c in s
    decreases |s|
  {
    if |s| < |p| then s
    else if MatchesAt(s, p, 0) then RemoveAll(s[|p|..], p)
    else [s[0]] + RemoveAll(s[1..], p)
  }

  lemma MatchShift(s: string, p: string, i: int)
    requires s != [] && i >= 0
    ensures MatchesAt(s[1..], p, i) <==> MatchesAt(s, p, i + 1)
  {
    assert forall k :: 0 <= k < |p| && i + 1 + k < |s| ==>
      (CharMatches(p[k], s[1..][i + k]) <==> CharMatches(p[k], s[i + 1 + k]));
  }

  /** Removing a pattern that does not occur leaves the text as it was. */
  lemma {:induction false} RemoveAllAbsent(s: string, p: string)
    requires p != []
    requires !Contains(s, p)
    ensures RemoveAll(s, p) == s
    decreases |s|
  {
    if |s| >= |p| {
      assert !MatchesAt(s, p, 0);
      forall k ensures !MatchesAt(s[1..], p, k) {
        if k >= 0 {
          MatchShift(s, p, k);
        }
      }
      RemoveAllAbsent(s[1..], p);
    }
  }

  /** Removing a pattern that does occur shortens the text by at least its length. */
  lemma {:induction false} RemoveAllPresent(s: string, p: string, i: nat)
    requires p != []
    requires MatchesAt(s, p, i)
    ensures |RemoveAll(s, p)| <= |s| - |p|
    decreases |s|
  {
    if !MatchesAt(s, p, 0) {
      MatchShift(s, p, i - 1);
      RemoveAllPresent(s[1..], p, i - 1);
    }
  }

  /** Matching after a prefix u is matching in the rest of the text, shifted by |u|. */
  lemma MatchAppend(u: string, v: string, p: string, k: int)
    requires k >= 0
    ensures MatchesAt(u + v, p, |u| + k) <==> MatchesAt(v, p, k)
  {
  }

  /** A match that ends inside u is a match in u alone. */
  lemma MatchPrefix(u: string, v: string, p: string, k: int)
    requires k + |p| <= |u|
    ensures MatchesAt(u + v, p, k) <==> MatchesAt(u, p, k)
  {
  }

  /** Matching in s[m..] is matching in s, shifted by m. */
  lemma MatchDrop(s: string, p: string, m: nat, k: int)
    requires m <= |s| && k >= 0
    ensures MatchesAt(s[m..], p, k) <==> MatchesAt(s, p, m + k)
  {
    assert s == s[..m] + s[m..];
    MatchAppend(s[..m], s[m..], p, k);
  }

  /** A match with no match before it is the one re.search reports. */
  lemma FindIs(s: string, p: string, i: nat)
    requires MatchesAt(s, p, i)
    requires forall k :: 0 <= k < i ==> !MatchesAt(s, p, k)
    ensures Find(s, p) == Some(i)
  {
  }

  /** Where p matches nowhere before len, the first len characters come through the cut untouched. */
  lemma {:induction false} RemoveAllKeep(s: string, p: string, len: nat)
    requires p != [] && len <= |s|
    requires forall m :: 0 <= m < len ==> !MatchesAt(s, p, m)
    ensures RemoveAll(s, p) == s[..len] + RemoveAll(s[len..], p)
    decreases len
  {
    if len > 0 {
      if |s| < |p| {
        assert s == s[..len] + s[len..];
      } else {
        forall m | 0 <= m < len - 1 ensures !MatchesAt(s[1..], p, m) {
          MatchShift(s, p, m);
        }
        RemoveAllKeep(s[1..], p, len - 1);
        KeepStep(s, p, len);
      }
    }
  }

  /** One step of RemoveAllKeep: with no match at 0, the first character is kept. */
  lemma KeepStep(s: string, p: string, len: nat)
    requires p != [] && 0 < len <= |s| && |p| <= |s| && !MatchesAt(s, p, 0)
    requires RemoveAll(s[1..], p) == s[1..][..len - 1] + RemoveAll(s[1..][len - 1..], p)
    ensures RemoveAll(s, p) == s[..len] + RemoveAll(s[len..], p)
  {
    var t := s[1..];
    assert t[len - 1..] == s[len..];
    assert [s[0]] + t == s;
    ConsSplit(s[0], t, len - 1, RemoveAll(s[len..], p));
  }

  lemma ConsSplit(c: char, t: string, k: nat, r: string)
    requires k <= |t|
    ensures [c] + (t[..k] + r) == ([c] + t)[..k + 1] + r
  {
    assert ([c] + t)[..k + 1] == [c] + t[..k];
  }

  /**
   * The cut as re.split makes it: the text before the leftmost match is kept,
   * the match is dropped, and the text after it is cut in turn. With
   * RemoveAllAbsent this determines RemoveAll from Find alone.
   */
  lemma RemoveAllFirst(s: string, p: string, i: nat)
    requires p != [] && Find(s, p) == Some(i)
    ensures RemoveAll(s, p) == s[..i] + RemoveAll(s[i + |p|..], p)
  {
    RemoveAllKeep(s, p, i);
    MatchDrop(s, p, i, 0);
    assert s[i..][|p|..] == s[i + |p|..];
  }

  /** A pattern that matches at i and nowhere else is cut out at i and the text around it kept. */
  lemma RemoveAllOnce(s: string, p: string, i: nat)
    requires p != [] && MatchesAt(s, p, i)
    requires forall m :: MatchesAt(s, p, m) ==> m == i
    ensures RemoveAll(s, p) == s[..i] + s[i + |p|..]
  {
    FindIs(s, p, i);
    RemoveAllFirst(s, p, i);
    var t := s[i + |p|..];
    forall k | k >= 0 ensures !MatchesAt(t, p, k) {
      MatchDrop(s, p, i + |p|, k);
    }
    RemoveAllAbsent(t, p);
  }

  /** No match of p in a + b starts in a and ends in b. */
  predicate NoStraddle(a: string, b: string, p: string)
  {
    forall m :: MatchesAt(a + b, p, m) ==> m + |p| <= |a| || |a| <= m
  }

  /** re.search in a + b, when no match straddles the boundary: it finds p exactly when a or b holds it. */
  lemma ContainsConcat(a: string, b: string, p: string)
    requires NoStraddle(a, b, p)
    ensures Contains(a + b, p) <==> Contains(a, p) || Contains(b, p)
  {
    forall m | MatchesAt(a, p, m) ensures MatchesAt(a + b, p, m) {
      MatchPrefix(a, b, p, m);
    }
    forall m | m >= 0 && MatchesAt(b, p, m) ensures MatchesAt(a + b, p, |a| + m) {
      MatchAppend(a, b, p, m);
    }
    if Contains(a + b, p) {
      var m := Find(a + b, p).value;
      if m + |p| <= |a| {
        MatchPrefix(a, b, p, m);
      } else {
        MatchAppend(a, b, p, m - |a|);
      }
    }
  }

  /** The cut of a + b when its leftmost match lies in b, or there is none: a is kept whole. */
  lemma RemoveAllConcatTail(a: string, b: string, p: string)
    requires p != []
    requires forall m :: 0 <= m < |a| ==> !MatchesAt(a + b, p, m)
    ensures RemoveAll(a, p) == a
    ensures RemoveAll(a + b, p) == a + RemoveAll(b, p)
  {
    forall k | 0 <= k ensures !MatchesAt(a, p, k) {
      if k + |p| <= |a| {
        MatchPrefix(a, b, p, k);
      }
    }
    RemoveAllAbsent(a, p);
    RemoveAllKeep(a + b, p, |a|);
    assert (a + b)[..|a|] == a && (a + b)[|a|..] == b;
  }

  /** A leftmost match of a + b that ends inside a is the leftmost match of a. */
  lemma FindPrefix(a: string, b: string, p: string)
    requires Find(a + b, p).Some? && Find(a + b, p).value + |p| <= |a|
    ensures Find(a, p) == Find(a + b, p)
  {
    var i := Find(a + b, p).value;
    MatchPrefix(a, b, p, i);
    forall k | 0 <= k < i ensures !MatchesAt(a, p, k) {
      MatchPrefix(a, b, p, k);
    }
    FindIs(a, p, i);
  }

  /** Dropping a prefix of a keeps the boundary free of straddling matches. */
  lemma NoStraddleDrop(a: string, b: string, p: string, d: nat)
    requires NoStraddle(a, b, p) && d <= |a|
    ensures NoStraddle(a[d..], b, p)
  {
    assert a[d..] + b == (a + b)[d..];
    forall m | MatchesAt(a[d..] + b, p, m) ensures m + |p| <= |a[d..]| || |a[d..]| <= m {
      MatchDrop(a + b, p, d, m);
    }
  }

  /**
   * The cut of a + b when its leftmost match i ends inside a: a[..i] is kept,
   * and if the cut distributes over what follows the match, it distributes
   * over a + b.
   */
  lemma RemoveAllConcatHead(a: string, b: string, p: string, i: nat)
    requires p != [] && Find(a + b, p) == Some(i) && i + |p| <= |a|
    requires RemoveAll(a[i + |p|..] + b, p) == RemoveAll(a[i + |p|..], p) + RemoveAll(b, p)
    ensures RemoveAll(a + b, p) == RemoveAll(a, p) + RemoveAll(b, p)
  {
    FindPrefix(a, b, p);
    RemoveAllFirst(a, p, i);
    CutConcatAt(a, b, p, i);
    var x, ra, rb := a[..i], RemoveAll(a[i + |p|..], p), RemoveAll(b, p);
    assert x + (ra + rb) == (x + ra) + rb;
  }

  /** The cut of a + b at a leftmost match that ends inside a. */
  lemma CutConcatAt(a: string, b: string, p: string, i: nat)
    requires p != [] && Find(a + b, p) == Some(i) && i + |p| <= |a|
    ensures RemoveAll(a + b, p) == a[..i] + RemoveAll(a[i + |p|..] + b, p)
  {
    RemoveAllFirst(a + b, p, i);
    assert (a + b)[..i] == a[..i];
    assert (a + b)[i + |p|..] == a[i + |p|..] + b;
  }

  /** Cutting distributes over a concatenation that no match straddles. */
  lemma {:induction false} RemoveAllConcat(a: string, b: string, p: string)
    requires p != [] && NoStraddle(a, b, p)
    ensures RemoveAll(a + b, p) == RemoveAll(a, p) + RemoveAll(b, p)
    decreases |a|
  {
    var f := Find(a + b, p);
    if f.Some? && f.value < |a| {
      var i := f.value;
      NoStraddleDrop(a, b, p, i + |p|);
      RemoveAllConcat(a[i + |p|..], b, p);
      RemoveAllConcatHead(a, b, p, i);
    } else {
      RemoveAllConcatTail(a, b, p);
    }
  }

  /** The text is empty or ends with a blank. */
  predicate BlankEnd(s: string)
  {
    s == [] || s[|s| - 1] == ' '
  }

  /** A literal pattern without c never straddles a boundary that has c on either side. */
  lemma CharCuts(a: string, b: string, p: string, c: char)
    requires Literal(p) && c !in p
    requires a == [] || b == [] || a[|a| - 1] == c || b[0] == c
    ensures NoStraddle(a, b, p)
  {
    forall m | MatchesAt(a + b, p, m) ensures m + |p| <= |a| || |a| <= m {
      var x := if a != [] && a[|a| - 1] == c then |a| - 1 - m else |a| - m;
      assert 0 <= x < |p| ==> CharMatches(p[x], (a + b)[m + x]) && p[x] in p;
    }
  }

  /** A literal pattern without blanks never straddles a boundary that has a blank on either side. */
  lemma BlankCuts(a: string, b: string, p: string)
    requires Literal(p) && ' ' !in p
    requires BlankEnd(a) || (b != [] && b[0] == ' ')
    ensures NoStraddle(a, b, p)
  {
    CharCuts(a, b, p, ' ');
  }

  /** Where no match straddles the boundary, every match of p in a + b is a match in a or a match in b. */
  lemma MatchesSplit(a: string, b: string, p: string, m: int)
    requires NoStraddle(a, b, p)
    ensures MatchesAt(a + b, p, m) ==>
      (m + |p| <= |a| && MatchesAt(a, p, m)) || (|a| <= m && MatchesAt(b, p, m - |a|))
  {
    if m + |p| <= |a| {
      MatchPrefix(a, b, p, m);
    } else if |a| <= m {
      MatchAppend(a, b, p, m - |a|);
    }
  }

  /** A pattern never matches twice at overlapping places. */
  ghost predicate SelfApart(p: string)
  {
    forall s, m, j :: MatchesAt(s, p, m) && MatchesAt(s, p, j) && m < j ==> m + |p| <= j
  }

  /** A literal pattern that disagrees with itself at every nonzero shift never overlaps itself. */
  lemma SelfApartByChars(p: string)
    requires Literal(p)
    requires forall d :: 0 < d < |p| ==> DisagreesAt(p, p, d)
    ensures SelfApart(p)
  {
    forall s, m, j | MatchesAt(s, p, m) && MatchesAt(s, p, j) && m < j ensures m + |p| <= j {
      assert j < m + |p| ==> DisagreesAt(p, p, j - m);
      assert forall k :: 0 <= k < |p| ==> p[k] in p;
    }
  }

  /** Cutting a literal pattern without blanks keeps a trailing blank. */
  lemma RemoveAllBlankEnd(s: string, p: string)
    requires p != [] && Literal(p) && ' ' !in p
    requires BlankEnd(s)
    ensures BlankEnd(RemoveAll(s, p))
  {
    if s != [] {
      var s' := s[..|s| - 1];
      assert s == s' + " ";
      BlankCuts(s', " ", p);
      RemoveAllConcat(s', " ", p);
      assert p[0] in p;
      assert !MatchesAt(" ", p, 0);
      assert RemoveAll(" ", p) == " " by {
        if |p| == 1 {
          assert RemoveAll(" ", p) == [' '] + RemoveAll(" "[1..], p);
        }
      }
    }
  }

  /**
   * An occurrence of q that no match of p overlaps is still found once p is
   * cut out: the cut only ever joins text, it never breaks q up.
   */
  lemma {:induction false} RemoveAllKeepsApart(s: string, p: string, q: string, j: int)
    requires p != [] && MatchesAt(s, q, j)
    requires forall m :: MatchesAt(s, p, m) ==> m + |p| <= j || j + |q| <= m
    ensures Contains(RemoveAll(s, p), q)
    decreases |s|
  {
    match Find(s, p)
    case None =>
      RemoveAllAbsent(s, p);
    case Some(i) =>
      RemoveAllFirst(s, p, i);
      var t := s[i + |p|..];
      var r := RemoveAll(t, p);
      if j + |q| <= i {
        assert s == s[..i] + s[i..];
        MatchPrefix(s[..i], s[i..], q, j);
        MatchPrefix(s[..i], r, q, j);
      } else {
        forall m | MatchesAt(t, p, m) ensures m + |p| <= j - i - |p| || j - i - |p| + |q| <= m {
          MatchDrop(s, p, i + |p|, m);
        }
        MatchDrop(s, q, i + |p|, j - i - |p|);
        RemoveAllKeepsApart(t, p, q, j - i - |p|);
        MatchAppend(s[..i], r, q, Find(r, q).value);
      }
  }

  /** No text holds a match of p and a match of q that overlap. */
  ghost predicate Apart(p: string, q: string)
  {
    forall s, m, j :: MatchesAt(s, p, m) && MatchesAt(s, q, j) ==> m + |p| <= j || j + |q| <= m
  }

  /** Placed with its start at offset d of p, q disagrees with p somewhere they overlap. */
  ghost predicate DisagreesAt(p: string, q: string, d: int)
  {
    exists k :: 0 <= k < |q| && 0 <= d + k < |p| && p[d + k] != q[k]
  }

  /** Two literal patterns that disagree at every offset never overlap in a text. */
  lemma ApartByChars(p: string, q: string)
    requires Literal(p) && Literal(q)
    requires forall d :: 0 <= d < |p| ==> DisagreesAt(p, q, d)
    requires forall d :: 0 <= d < |q| ==> DisagreesAt(q, p, d)
    ensures Apart(p, q)
  {
    forall s, m, j | MatchesAt(s, p, m) && MatchesAt(s, q, j) ensures m + |p| <= j || j + |q| <= m {
      var d := if m <= j then j - m else m - j;
      assert m <= j < m + |p| ==> DisagreesAt(p, q, d);
      assert j < m < j + |q| ==> DisagreesAt(q, p, d);
      assert forall k :: 0 <= k < |p| ==> p[k] in p;
      assert forall k :: 0 <= k < |q| ==> q[k] in q;
    }
  }

  /**
   * str.replace(c, "") for a one-character literal pattern: no c is left, a
   * text without c is left as it is, and a lone c disappears.
   */
  lemma {:induction false} RemoveAllChar(s: string, c: char)
    requires c != '.'
    ensures c !in RemoveAll(s, [c])
    ensures c !in s ==> RemoveAll(s, [c]) == s
    ensures s == [c] ==> RemoveAll(s, [c]) == []
    decreases |s|
  {
    if |s| >= 1 {
      RemoveAllChar(s[1..], c);
      if c !in s {
        assert s[0] != c && [c][0] == c;
        assert !MatchesAt(s, [c], 0);
        assert RemoveAll(s, [c]) == [s[0]] + RemoveAll(s[1..], [c]);
        assert s == [s[0]] + s[1..];
      }
    }
  }

  /** str.replace(c, "") keeps every other character in order: it distributes over concatenation. */
  lemma RemoveAllCharConcat(a: string, b: string, c: char)
    requires c != '.'
    ensures RemoveAll(a + b, [c]) == RemoveAll(a, [c]) + RemoveAll(b, [c])
  {
    RemoveAllConcat(a, b, [c]);
  }

  /** str.replace(a, b) for single characters a and b. */
  function ReplaceChar(s: string, a: char, b: char): (r: string)
    ensures |r| == |s|
    ensures forall k :: 0 <= k < |s| ==> r[k] == if s[k] == a then b else s[k]
  {
    if s == [] then []
    else [if s[0] == a then b else s[0]] + ReplaceChar(s[1..], a, b)
  }

  lemma ReplaceCharConcat(s: string, t: string, a: char, b: char)
    ensures ReplaceChar(s + t, a, b) == ReplaceChar(s, a, b) + ReplaceChar(t, a, b)
  {
    assert forall k :: 0 <= k < |t| ==> (s + t)[|s| + k] == t[k];
  }

  /** Apostrophes at i and j with no newline between them: a match of the regular expression '.*'. */
  predicate QuotedSpan(s: string, i: int, j: int)
  {
    0 <= i < j < |s| && s[i] == '\'' && s[j] == '\'' && forall k :: i < k < j ==> s[k] != '\n'
  }

  /** Scans for a quoted span; open records an apostrophe seen since the last newline. */
  function QuoteScan(s: string, open: bool): bool
  {
    if s == [] then false
    else if s[0] == '\'' then open || QuoteScan(s[1..], true)
    else if s[0] == '\n' then QuoteScan(s[1..], false)
    else QuoteScan(s[1..], open)
  }

  /** An apostrophe at index j with no newline before it. */
  predicate OpenQuoteAt(s: string, j: int)
  {
    0 <= j < |s| && s[j] == '\'' && forall k :: 0 <= k < j ==> s[k] != '\n'
  }

  lemma {:induction false} QuoteScanCorrect(s: string, open: bool)
    ensures QuoteScan(s, open) <==> (exists i, j :: QuotedSpan(s, i, j)) || (open && exists j :: OpenQuoteAt(s, j))
    decreases |s|
  {
    if s != [] {
      var t := s[1..];
      QuoteScanCorrect(t, if s[0] == '\'' then true else if s[0] == '\n' then false else open);
      // Spans and open quotes of the tail are those of s, shifted by one.
      forall i, j | QuotedSpan(t, i, j) ensures QuotedSpan(s, i + 1, j + 1) {
        assert forall k :: i + 1 < k < j + 1 ==> s[k] == t[k - 1];
      }
      forall i, j | QuotedSpan(s, i, j) && i > 0 ensures QuotedSpan(t, i - 1, j - 1) {
        assert forall k :: i - 1 < k < j - 1 ==> t[k] == s[k + 1];
      }
      if s[0] == '\'' {
        forall j | OpenQuoteAt(t, j) ensures QuotedSpan(s, 0, j + 1) {
          assert forall k :: 0 < k < j + 1 ==> s[k] == t[k - 1];
        }
        forall i, j | QuotedSpan(s, i, j) && i == 0 ensures OpenQuoteAt(t, j - 1) {
          assert forall k :: 0 <= k < j - 1 ==> t[k] == s[k + 1];
        }
        assert OpenQuoteAt(s, 0);
      } else if s[0] == '\n' {
        assert forall j :: !OpenQuoteAt(s, j);
      } else {
        forall j | OpenQuoteAt(t, j) ensures OpenQuoteAt(s, j + 1) {
          assert forall k :: 0 < k < j + 1 ==> s[k] == t[k - 1];
        }
        forall j | OpenQuoteAt(s, j) ensures OpenQuoteAt(t, j - 1) {
          assert forall k :: 0 <= k < j - 1 ==> t[k] == s[k + 1];
        }
      }
    }
  }

  /** re.search("'.*'", s) succeeds: s holds two apostrophes on one text line. */
  function HasQuotedSpan(s: string): (b: bool)
    ensures b <==> exists i, j :: QuotedSpan(s, i, j)
  {
    QuoteScanCorrect(s, false);
    QuoteScan(s, false)
  }
}
