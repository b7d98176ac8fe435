/**
 * Decoding the fluid header line of a tab file: the line that names the fluid
 * between apostrophes and may carry the boolean options and an equation of
 * state, as in  'FLUID-1', WATER-OPTION, EOS=PR. A '}' after the EOS ends
 * its token and stays in the fluid name.
 */
module FluidHeader {
  import opened Results
  import opened Text
  import opened Catalog

  /** Python's int() of a float: truncation toward zero. */
  function Trunc(x: real): (r: int)
    ensures 0.0 <= x ==> 0 <= r && r as real <= x < r as real + 1.0
    ensures x < 0.0 ==> r <= 0 && r as real - 1.0 < x <= r as real
  {
    if x >= 0.0 then x.Floor else -((-x).Floor)
  }

  /**
   * The header line with its apostrophes removed and its commas turned into
   * blanks. With CleanedConcat the clauses for a one-character text determine
   * it: every other character is kept, in order.
   */
  function Cleaned(text: string): (r: string)
    ensures |r| <= |text|
    ensures '\'' !in r && ',' !in r
    ensures forall c :: c in r ==> c in text || c == ' '
    ensures '\'' !in text ==> r == ReplaceChar(text, ',', ' ')
    ensures |text| == 1 ==> r == if text[0] == '\'' then [] else if text[0] == ',' then " " else text
  {
    var a := RemoveAll(text, "'");
    RemoveAllChar(text, '\'');
    var r := ReplaceChar(a, ',', ' ');
    assert forall k :: 0 <= k < |r| ==> r[k] != '\'' && r[k] != ',' && (r[k] in a || r[k] == ' ');
    r
  }

  /** Cleaning distributes over concatenation. */
  lemma CleanedConcat(a: string, b: string)
    ensures Cleaned(a + b) == Cleaned(a) + Cleaned(b)
  {
    RemoveAllCharConcat(a, b, '\'');
    ReplaceCharConcat(RemoveAll(a, "'"), RemoveAll(b, "'"), ',', ' ');
  }

  /** What the option search leaves of the line, and the options it switched on. */
  datatype FlagScan = FlagScan(rest: string, found: set<Flag>)

  /**
   * Searches the line for the keywords of fs in order; each keyword found
   * switches its option on and is cut out of the line before the next search.
   */
  function ScanFlags(line: string, fs: seq<Flag>): (s: FlagScan)
    ensures |s.rest| <= |line|
    ensures forall c :: c in s.rest ==> c in line
    ensures forall f :: f in s.found ==> f in fs
    decreases |fs|
  {
    if fs == [] then FlagScan(line, {})
    else
      var s := ScanFlags(line, fs[..|fs| - 1]);
      var f := fs[|fs| - 1];
      if Contains(s.rest, Keyword(f)) then FlagScan(RemoveAll(s.rest, Keyword(f)), s.found + {f})
      else s
  }

  /** One more option searched: its keyword is looked for in what the search so far left of the line. */
  lemma ScanFlagsNext(line: string, fs: seq<Flag>, k: nat)
    requires k < |fs|
    ensures var s := ScanFlags(line, fs[..k]);
      ScanFlags(line, fs[..k + 1]) ==
        if Contains(s.rest, Keyword(fs[k])) then FlagScan(RemoveAll(s.rest, Keyword(fs[k])), s.found + {fs[k]}) else s
  {
    assert fs[..k + 1][..k] == fs[..k];
  }

  /** A line holding none of the keywords comes out of the search unchanged, with no option on. */
  lemma {:induction false} ScanFlagsAbsent(line: string, fs: seq<Flag>)
    requires forall f :: !Contains(line, Keyword(f))
    ensures ScanFlags(line, fs) == FlagScan(line, {})
    decreases |fs|
  {
    if fs != [] {
      ScanFlagsAbsent(line, fs[..|fs| - 1]);
    }
  }

  /**
   * The options are searched in the order of fs: the option at position k is
   * switched on exactly when its keyword occurs in what the search for the
   * options before it left of the line.
   */
  lemma {:induction false} ScanFlagsFound(line: string, fs: seq<Flag>, k: nat)
    requires forall i, j :: 0 <= i < j < |fs| ==> fs[i] != fs[j]
    requires k < |fs|
    ensures fs[k] in ScanFlags(line, fs).found <==> Contains(ScanFlags(line, fs[..k]).rest, Keyword(fs[k]))
    decreases |fs|
  {
    var fs' := fs[..|fs| - 1];
    assert forall i :: 0 <= i < |fs'| ==> fs'[i] == fs[i];
    if k == |fs| - 1 {
      assert fs[..k] == fs';
    } else {
      assert fs'[..k] == fs[..k];
      ScanFlagsFound(line, fs', k);
    }
  }

  /**
   * A search over a line made of n, o and e, where n and e hold no keyword and
   * blanks end n and o: n and e come through untouched, and the options are
   * those of o.
   */
  lemma {:induction false} ScanFlagsSplit(n: string, o: string, e: string, fs: seq<Flag>)
    requires BlankEnd(n) && BlankEnd(o)
    requires forall f :: !Contains(n, Keyword(f)) && !Contains(e, Keyword(f))
    ensures BlankEnd(ScanFlags(o, fs).rest)
    ensures ScanFlags(n + o + e, fs) == FlagScan(n + ScanFlags(o, fs).rest + e, ScanFlags(o, fs).found)
    decreases |fs|
  {
    if fs != [] {
      var fs' := fs[..|fs| - 1];
      var kw := Keyword(fs[|fs| - 1]);
      ScanFlagsSplit(n, o, e, fs');
      var r := ScanFlags(o, fs').rest;
      var nr := n + r;
      assert BlankEnd(nr) by {
        if r == [] {
          assert nr == n;
        }
      }
      BlankCuts(n, r, kw);
      BlankCuts(nr, e, kw);
      ContainsConcat(n, r, kw);
      ContainsConcat(nr, e, kw);
      if Contains(r, kw) {
        RemoveAllConcat(nr, e, kw);
        RemoveAllConcat(n, r, kw);
        RemoveAllAbsent(n, kw);
        RemoveAllAbsent(e, kw);
        RemoveAllBlankEnd(r, kw);
      }
    }
  }

  /** WATER-OPTION and ENTROPY never overlap in a line, and neither do ENTROPY and NONEQ. */
  lemma KeywordsApart()
    ensures Apart(Keyword(WaterOption), Keyword(Entropy))
    ensures Apart(Keyword(Entropy), Keyword(Noneq))
  {
    var w, e, n := Keyword(WaterOption), Keyword(Entropy), Keyword(Noneq);
    forall d | 0 <= d < |w| ensures DisagreesAt(w, e, d) {
      if d == 3 {
        assert w[d + 1] != e[1];
      } else {
        assert w[d] != e[0];
      }
    }
    forall d | 0 <= d < |e| ensures DisagreesAt(e, w, d) {
      assert e[d] != w[0];
    }
    ApartByChars(w, e);
    forall d | 0 <= d < |e| ensures DisagreesAt(e, n, d) {
      if d == 1 {
        assert e[d + 1] != n[1];
      } else {
        assert e[d] != n[0];
      }
    }
    forall d | 0 <= d < |n| ensures DisagreesAt(n, e, d) {
      if d == 3 {
        assert n[d + 1] != e[1];
      } else {
        assert n[d] != e[0];
      }
    }
    ApartByChars(e, n);
  }

  /** WATER-OPTION, searched first, is on exactly when its keyword occurs in the cleaned line. */
  lemma HeaderWaterOption(text: string)
    ensures WaterOption in DecodeHeader(text).flags <==> Contains(Cleaned(text), Keyword(WaterOption))
  {
    ScanFlagsFound(Cleaned(text), FLAG_ORDER, 0);
    assert FLAG_ORDER[..0] == [];
  }

  /** ENTROPY is on whenever its keyword occurs in the cleaned line: cutting WATER-OPTION out first cannot break it up. */
  lemma HeaderEntropy(text: string)
    ensures Contains(Cleaned(text), Keyword(Entropy)) ==> Entropy in DecodeHeader(text).flags
  {
    var line := Cleaned(text);
    var w, e := Keyword(WaterOption), Keyword(Entropy);
    ScanFlagsFound(line, FLAG_ORDER, 1);
    assert FLAG_ORDER[..1] == [WaterOption] && [WaterOption][..0] == [];
    var r1 := ScanFlags(line, [WaterOption]).rest;
    assert r1 == if Contains(line, w) then RemoveAll(line, w) else line;
    if Contains(line, e) && Contains(line, w) {
      KeywordsApart();
      RemoveAllKeepsApart(line, w, e, Find(line, e).value);
    }
  }

  /**
   * NONEQ is on when its keyword occurs in the cleaned line at a place no
   * WATER-OPTION overlaps. (In WATER-OPTIONONEQ the cut of WATER-OPTION takes
   * the first N of NONEQ with it, and NONEQ stays off.)
   */
  lemma HeaderNoneq(text: string, j: int)
    requires MatchesAt(Cleaned(text), Keyword(Noneq), j)
    requires forall m :: MatchesAt(Cleaned(text), Keyword(WaterOption), m) ==>
      m + |Keyword(WaterOption)| <= j || j + |Keyword(Noneq)| <= m
    ensures Noneq in DecodeHeader(text).flags
  {
    var line := Cleaned(text);
    ScanFlagsFound(line, FLAG_ORDER, 2);
    NoneqPastEntropy(line, j);
  }

  /** The NONEQ occurrence at j survives the cut of WATER-OPTION. */
  lemma NoneqPastWaterOption(line: string, j: int)
    requires MatchesAt(line, Keyword(Noneq), j)
    requires forall m :: MatchesAt(line, Keyword(WaterOption), m) ==>
      m + |Keyword(WaterOption)| <= j || j + |Keyword(Noneq)| <= m
    ensures Contains(ScanFlags(line, FLAG_ORDER[..1]).rest, Keyword(Noneq))
  {
    ScanFlagsNext(line, FLAG_ORDER, 0);
    assert FLAG_ORDER[..0] == [];
    if Contains(line, Keyword(WaterOption)) {
      RemoveAllKeepsApart(line, Keyword(WaterOption), Keyword(Noneq), j);
    }
  }

  /** The NONEQ occurrence at j also survives the cut of ENTROPY, which no NONEQ overlaps. */
  lemma NoneqPastEntropy(line: string, j: int)
    requires MatchesAt(line, Keyword(Noneq), j)
    requires forall m :: MatchesAt(line, Keyword(WaterOption), m) ==>
      m + |Keyword(WaterOption)| <= j || j + |Keyword(Noneq)| <= m
    ensures Contains(ScanFlags(line, FLAG_ORDER[..2]).rest, Keyword(Noneq))
  {
    NoneqPastWaterOption(line, j);
    ScanFlagsNext(line, FLAG_ORDER, 1);
    var r1 := ScanFlags(line, FLAG_ORDER[..1]).rest;
    if Contains(r1, Keyword(Entropy)) {
      KeywordsApart();
      RemoveAllKeepsApart(r1, Keyword(Entropy), Keyword(Noneq), Find(r1, Keyword(Noneq)).value);
    }
  }

  /** The end of the EOS token: the first '}' at or after j, or the end of the line. */
  function EosEnd(line: string, j: nat): (e: nat)
    requires j <= |line|
    ensures j <= e <= |line|
    ensures e == |line| || line[e] == '}'
    ensures forall k :: j <= k < e ==> line[k] != '}'
    decreases |line| - j
  {
    if j == |line| || line[j] == '}' then j else EosEnd(line, j + 1)
  }

  /** A piece of a text matches, as a pattern, where it was taken from. */
  lemma SliceMatches(s: string, i: nat, j: nat)
    requires i <= j <= |s|
    ensures MatchesAt(s, s[i..j], i)
  {
    forall k | 0 <= k < j - i ensures CharMatches(s[i..j][k], s[i + k]) {
      assert s[i..j][k] == s[i + k];
    }
  }

  /**
   * The EOS token at a match of "EOS=" at i, as (EOS=)([^}]*) takes it: it
   * holds no '}' and runs up to the next '}' or the end of the line.
   */
  function EosToken(line: string, i: nat): (t: string)
    requires MatchesAt(line, "EOS=", i)
    ensures |t| >= 4 && MatchesAt(line, t, i) && t == line[i..i + |t|]
    ensures '}' !in t
    ensures i + |t| == |line| || line[i + |t|] == '}'
  {
    var e := EosEnd(line, i + 4);
    var t := line[i..e];
    LiteralMatchesAt(line, "EOS=", i);
    assert t[..4] == "EOS=";
    assert forall k :: 4 <= k < |t| ==> t[k] == line[i + k];
    assert forall k :: 0 <= k < |t| ==> t[k] != '}' by {
      forall k | 0 <= k < |t| ensures t[k] != '}' {
        if k < 4 {
          assert t[k] in t[..4];
        }
      }
    }
    SliceMatches(line, i, e);
    t
  }

  /** The value of an EOS token: without "EOS=" and surrounding blanks, or "UNKNOWN" when nothing is left. */
  function EosValue(token: string): (v: string)
    ensures v != [] && !IsSpace(v[0]) && !IsSpace(v[|v| - 1])
    ensures '}' !in token ==> '}' !in v
  {
    var v := Strip(RemoveAll(token, "EOS="));
    if v == [] then "UNKNOWN" else v
  }

  /** The value of the token "EOS=" + v, where v holds no further "EOS=": v stripped, or "UNKNOWN" when v is blank. */
  lemma EosValueOf(v: string)
    requires !Contains(v, "EOS=")
    ensures EosValue("EOS=" + v) == if Strip(v) == [] then "UNKNOWN" else Strip(v)
  {
    var t := "EOS=" + v;
    assert t[..4] == "EOS=";
    LiteralMatchesAt(t, "EOS=", 0);
    assert t[4..] == v;
    RemoveAllAbsent(v, "EOS=");
  }

  /** "EOS=" never overlaps itself. */
  lemma EosSelfApart()
    ensures SelfApart("EOS=")
  {
    var p := "EOS=";
    forall d | 0 < d < |p| ensures DisagreesAt(p, p, d) {
      assert p[d] != p[0];
    }
    SelfApartByChars(p);
  }

  /** In u + x, where x starts with "EOS=" and u holds none, re.search finds "EOS=" where x starts. */
  lemma EosLeftmost(u: string, x: string)
    requires !Contains(u, "EOS=")
    requires |x| >= 4 && x[..4] == "EOS="
    ensures Find(u + x, "EOS=") == Some(|u|)
  {
    var line := u + x;
    assert line[|u|..|u| + 4] == x[..4];
    LiteralMatchesAt(line, "EOS=", |u|);
    EosSelfApart();
    forall m | 0 <= m < |u| ensures !MatchesAt(line, "EOS=", m) {
      if m + 4 <= |u| {
        MatchPrefix(u, x, "EOS=", m);
      }
    }
    FindIs(line, "EOS=", |u|);
  }

  /** In u + "EOS=" + v + w, with "EOS=" in none of u, v and w and w empty or opening with '}', "EOS=" occurs only after u. */
  lemma EosOnce(u: string, v: string, w: string)
    requires !Contains(u, "EOS=") && !Contains(v, "EOS=") && !Contains(w, "EOS=")
    requires w == [] || w[0] == '}'
    ensures forall m :: MatchesAt(u + "EOS=" + v + w, "EOS=", m) ==> m == |u|
  {
    var p := "EOS=";
    var y := v + w;
    var x := p + y;
    assert u + p + v + w == u + x;
    EosLeftmost(u, x);
    EosSelfApart();
    assert NoStraddle(u, x, p);
    assert NoStraddle(p, y, p) by {
      assert x[..4] == p;
      LiteralMatchesAt(x, p, 0);
    }
    CharCuts(v, w, p, '}');
    forall m | MatchesAt(u + x, p, m) ensures m == |u| {
      MatchesSplit(u, x, p, m);
      MatchesSplit(p, y, p, m - |u|);
      MatchesSplit(v, w, p, m - |u| - 4);
    }
  }

  /** The equation of state found on the line, and the line with its EOS token cut out. */
  datatype EosScan = EosScan(eos: string, rest: string)

  /**
   * The leftmost "EOS=" opens the EOS token; its value is the equation of
   * state, and the token is cut out of the line. A line without "EOS=" gives
   * "UNKNOWN" and is left as it is.
   */
  function ExtractEos(line: string): (r: EosScan)
    ensures r.eos != [] && '}' !in r.eos
    ensures !IsSpace(r.eos[0]) && !IsSpace(r.eos[|r.eos| - 1])
    ensures |r.rest| <= |line| && forall c :: c in r.rest ==> c in line
    ensures !Contains(line, "EOS=") ==> r == EosScan("UNKNOWN", line)
    ensures Contains(line, "EOS=") ==> |r.rest| <= |line| - 4
  {
    match Find(line, "EOS=")
    case None => EosScan("UNKNOWN", line)
    case Some(i) =>
      var token := EosToken(line, i);
      RemoveAllPresent(line, token, i);
      EosScan(EosValue(token), RemoveAll(line, token))
  }

  /**
   * The EOS of a line u + "EOS=" + v + w, where u and v hold no "EOS=", v no
   * '}', and w is empty or starts at the closing '}': v stripped, or
   * "UNKNOWN" when v is blank. When w holds no "EOS=" either, the token is
   * cut out and u + w is what remains.
   */
  lemma ExtractEosLayout(line: string, u: string, v: string, w: string)
    requires line == u + "EOS=" + v + w
    requires !Contains(u, "EOS=") && !Contains(v, "EOS=")
    requires '}' !in v
    requires w == [] || w[0] == '}'
    ensures ExtractEos(line).eos == if Strip(v) == [] then "UNKNOWN" else Strip(v)
    ensures !Contains(w, "EOS=") ==> ExtractEos(line).rest == u + w
  {
    EosTokenOf(line, u, v, w);
    EosValueOf(v);
    if !Contains(w, "EOS=") {
      EosOnce(u, v, w);
      EosCut(line, u, v, w);
    }
  }

  /** The token taken after u is "EOS=" + v. */
  lemma EosTokenOf(line: string, u: string, v: string, w: string)
    requires line == u + "EOS=" + v + w
    requires !Contains(u, "EOS=") && '}' !in v
    requires w == [] || w[0] == '}'
    ensures Find(line, "EOS=") == Some(|u|)
    ensures EosToken(line, |u|) == "EOS=" + v
  {
    var x := "EOS=" + v + w;
    assert line == u + x && x[..4] == "EOS=";
    EosLeftmost(u, x);
    EosTokenSpan(line, u, v, w);
  }

  /** The token read at the "EOS=" after u is "EOS=" + v. */
  lemma EosTokenSpan(line: string, u: string, v: string, w: string)
    requires line == u + "EOS=" + v + w && MatchesAt(line, "EOS=", |u|)
    requires '}' !in v && (w == [] || w[0] == '}')
    ensures EosToken(line, |u|) == "EOS=" + v
  {
    var p := u + "EOS=";
    assert line == p + (v + w);
    EosEndAt(line, p, v, w);
    var i := |u|;
    assert line[i..i + 4 + |v|] == "EOS=" + v;
  }

  /** Past a prefix p, the token runs over v, which holds no '}', up to the '}' or end that w starts with. */
  lemma EosEndAt(line: string, p: string, v: string, w: string)
    requires line == p + (v + w)
    requires '}' !in v && (w == [] || w[0] == '}')
    ensures EosEnd(line, |p|) == |p| + |v|
  {
    var j, e := |p|, |p| + |v|;
    assert forall k :: j <= k < e ==> line[k] == v[k - j];
    assert forall k :: 0 <= k < |v| ==> v[k] in v;
    assert e < |line| ==> line[e] == w[0];
    EosEndUnique(line, j, e);
  }

  /** EosEnd is the only end with no '}' before it and a '}' or the end of the line at it. */
  lemma EosEndUnique(line: string, j: nat, e: nat)
    requires j <= e <= |line|
    requires forall k :: j <= k < e ==> line[k] != '}'
    requires e == |line| || line[e] == '}'
    ensures EosEnd(line, j) == e
  {
  }

  /** With "EOS=" only after u, the token "EOS=" + v is cut out just there. */
  lemma EosCut(line: string, u: string, v: string, w: string)
    requires line == u + "EOS=" + v + w
    requires forall m :: MatchesAt(line, "EOS=", m) ==> m == |u|
    ensures RemoveAll(line, "EOS=" + v) == u + w
  {
    var token := "EOS=" + v;
    var i := |u|;
    assert line[i..i + |token|] == token;
    forall m | MatchesAt(line, token, m) ensures m == i {
      assert token[..4] == "EOS=";
      assert MatchesAt(line, "EOS=", m);
    }
    assert MatchesAt(line, token, i) by {
      SliceMatches(line, i, i + |token|);
    }
    RemoveAllOnce(line, token, i);
    assert line[..i] == u && line[i + |token|..] == w;
  }

  /** The fields a fluid header line sets. */
  datatype Header = Header(flags: set<Flag>, eos: string, name: string)

  /**
   * The header line decoded: apostrophes removed and commas blanked, options
   * searched and cut out, the EOS token extracted and cut out; the fluid name
   * is what remains, stripped.
   */
  function DecodeHeader(text: string): (h: Header)
    ensures h.eos != [] && '}' !in h.eos
    ensures '\'' !in h.name && ',' !in h.name
    ensures h.name == [] || (!IsSpace(h.name[0]) && !IsSpace(h.name[|h.name| - 1]))
    ensures |h.name| <= |text|
  {
    var s := ScanFlags(Cleaned(text), FLAG_ORDER);
    var e := ExtractEos(s.rest);
    var name := Strip(e.rest);
    assert forall c :: c in name ==> c in Cleaned(text);
    Header(s.found, e.eos, name)
  }

  /** A header holding no option keyword and no "EOS=" sets no option, EOS "UNKNOWN", and the whole cleaned line as the name. */
  lemma HeaderDefaults(text: string)
    requires forall f :: !Contains(Cleaned(text), Keyword(f))
    requires !Contains(Cleaned(text), "EOS=")
    ensures DecodeHeader(text) == Header({}, "UNKNOWN", Strip(Cleaned(text)))
  {
    ScanFlagsAbsent(Cleaned(text), FLAG_ORDER);
  }

  /**
   * The usual layout of a header line: once cleaned, a name part n, an
   * options part o, then "EOS=" and the equation of state v. When blanks end
   * n and o, n holds no keyword and no "EOS=", the EOS part holds no keyword,
   * and cutting the keywords out of o leaves only blanks, the options are
   * those of o, the EOS is v stripped (or "UNKNOWN"), and the fluid name is n
   * stripped.
   */
  lemma HeaderLayout(text: string, n: string, o: string, v: string)
    requires Cleaned(text) == n + o + ("EOS=" + v)
    requires BlankEnd(n) && BlankEnd(o)
    requires forall f :: !Contains(n, Keyword(f)) && !Contains("EOS=" + v, Keyword(f))
    requires !Contains(n, "EOS=") && !Contains(v, "EOS=") && '}' !in v
    requires AllSpace(ScanFlags(o, FLAG_ORDER).rest)
    ensures DecodeHeader(text) ==
      Header(ScanFlags(o, FLAG_ORDER).found, if Strip(v) == [] then "UNKNOWN" else Strip(v), Strip(n))
  {
    var e := "EOS=" + v;
    var line := Cleaned(text);
    ScanFlagsSplit(n, o, e, FLAG_ORDER);
    var sc := ScanFlags(o, FLAG_ORDER);
    assert ScanFlags(line, FLAG_ORDER) == FlagScan(n + sc.rest + e, sc.found);
    EosAfterName(n, sc.rest, v);
    StripTrailingSpace(n, sc.rest);
    HeaderFrom(text, line, sc.found, n + sc.rest + e, n + sc.rest);
  }

  /** DecodeHeader in three steps: the option search, the EOS extraction, the strip. */
  lemma HeaderFrom(text: string, line: string, found: set<Flag>, afterFlags: string, afterEos: string)
    requires line == Cleaned(text)
    requires ScanFlags(line, FLAG_ORDER) == FlagScan(afterFlags, found)
    requires ExtractEos(afterFlags).rest == afterEos
    ensures DecodeHeader(text) == Header(found, ExtractEos(afterFlags).eos, Strip(afterEos))
  {
  }

  /** After a name part ending in a blank and a run of blanks, the EOS token is the rest of the line. */
  lemma EosAfterName(n: string, os: string, v: string)
    requires BlankEnd(n) && AllSpace(os)
    requires !Contains(n, "EOS=") && !Contains(v, "EOS=") && '}' !in v
    ensures ExtractEos(n + os + ("EOS=" + v)) == EosScan(if Strip(v) == [] then "UNKNOWN" else Strip(v), n + os)
  {
    var u := n + os;
    assert "EOS="[0] == 'E' && Literal("EOS=") && ' ' !in "EOS=";
    BlankCuts(n, os, "EOS=");
    ContainsConcat(n, os, "EOS=");
    forall k | k >= 0 ensures !MatchesAt(os, "EOS=", k) {
      assert k + 4 <= |os| ==> IsSpace(os[k]);
    }
    assert u + [] == u;
    ExtractEosLayout(u + ("EOS=" + v), u, v, []);
  }
}
