/** The parts of Python's `str` type that the text-shaping code relies on:
    `isspace`, `strip()`, `split(sep)`, `split()`, `sep.join(...)`, `str(n)` for a
    natural number and `zfill`. Each is defined as CPython behaves, and the laws
    the rest of the model needs (round trips, idempotence, shape of the result)
    are proved here once. */
module PyStr {

  // ---------------------------------------------------------------------------
  // Whitespace and strip()

  /** `c.isspace()`: the fixed set of Unicode whitespace characters that
      `str.strip()` and `str.split()` without arguments remove or split on. */
  predicate IsSpace(c: char)
  {
    ('\t' <= c <= '\r') || ('\U{1C}' <= c <= '\U{1F}') || c == ' ' || c == '\U{85}' || c == '\U{A0}'
    || c == '\U{1680}' || ('\U{2000}' <= c <= '\U{200A}') || c == '\U{2028}' || c == '\U{2029}'
    || c == '\U{202F}' || c == '\U{205F}' || c == '\U{3000}'
  }

  predicate AllSpace(s: string)
  {
    forall i :: 0 <= i < |s| ==> IsSpace(s[i])
  }

  /** Neither the first nor the last character is whitespace. */
  predicate NoOuterSpace(s: string)
  {
    s == [] || (!IsSpace(s[0]) && !IsSpace(s[|s| - 1]))
  }

  /** `s.lstrip()`: drops the leading whitespace, keeps a suffix. */
  function LStrip(s: string): (r: string)
    ensures |r| <= |s| && r == s[|s| - |r|..]
    ensures r == [] || !IsSpace(r[0])
    decreases |s|
  {
    if s != [] && IsSpace(s[0]) then LStrip(s[1..]) else s
  }

  /** What `lstrip` drops is whitespace. */
  lemma {:induction false} LStripSpace(s: string)
    ensures AllSpace(s[..|s| - |LStrip(s)|])
    decreases |s|
  {
    if s != [] && IsSpace(s[0]) {
      var t := s[1..];
      var r := LStrip(t);
      assert LStrip(s) == r;
      LStripSpace(t);
      var d := s[..|s| - |r|];
      forall i | 0 <= i < |d| ensures IsSpace(d[i]) {
        if i > 0 { assert d[i] == t[..|t| - |r|][i - 1]; }
      }
    }
  }

  /** `s.rstrip()`: drops the trailing whitespace, keeps a prefix. */
  function RStrip(s: string): (r: string)
    ensures |r| <= |s| && r == s[..|r|]
    ensures r == [] || !IsSpace(r[|r| - 1])
    decreases |s|
  {
    if s != [] && IsSpace(s[|s| - 1]) then RStrip(s[..|s| - 1]) else s
  }

  /** What `rstrip` drops is whitespace. */
  lemma {:induction false} RStripSpace(s: string)
    ensures AllSpace(s[|RStrip(s)|..])
    decreases |s|
  {
    if s != [] && IsSpace(s[|s| - 1]) {
      var t := s[..|s| - 1];
      var r := RStrip(t);
      assert RStrip(s) == r;
      RStripSpace(t);
      var d := s[|r|..];
      forall i | 0 <= i < |d| ensures IsSpace(d[i]) {
        if i < |d| - 1 { assert d[i] == t[|r|..][i]; }
      }
    }
  }

  /** `s.strip()`: the middle of `s` between leading and trailing whitespace. */
  function Strip(s: string): (r: string)
    ensures NoOuterSpace(r) && |r| <= |s|
  {
    LStrip(RStrip(s))
  }

  /** `s.strip()` is the slice `s[b..e]`, with only whitespace before `b` and
      from `e` on. */
  lemma StripSlice(s: string)
    ensures var e := |RStrip(s)|; var b := e - |Strip(s)|;
      0 <= b <= e <= |s| && Strip(s) == s[b..e] && AllSpace(s[..b]) && AllSpace(s[e..])
  {
    var t := RStrip(s);
    var r := Strip(s);
    LStripSpace(t);
    RStripSpace(s);
    assert s[..|t| - |r|] == t[..|t| - |r|];
  }

  /** `StripSlice` with the bounds of the slice named. */
  lemma StripBounds(s: string) returns (b: int, e: int)
    ensures 0 <= b <= e <= |s| && Strip(s) == s[b..e]
    ensures AllSpace(s[..b]) && AllSpace(s[e..])
  {
    StripSlice(s);
    e := |RStrip(s)|;
    b := e - |Strip(s)|;
  }

  lemma StripOfTrimmed(s: string)
    requires NoOuterSpace(s)
    ensures Strip(s) == s
  {
  }

  /** `s.strip()` is empty exactly when `s` is all whitespace. */
  lemma StripEmptyIff(s: string)
    ensures Strip(s) == [] <==> AllSpace(s)
  {
    var r, t := Strip(s), RStrip(s);
    StripSlice(s);
    if r == [] {
      assert |t| == 0;
      assert s[|t|..] == s;
    } else if AllSpace(s) {
      assert false;
    }
  }

  lemma StripIdempotent(s: string)
    ensures Strip(Strip(s)) == Strip(s)
  {
    StripOfTrimmed(Strip(s));
  }

  // ---------------------------------------------------------------------------
  // Substrings

  predicate OccursAt(s: string, sep: string, i: int)
  {
    0 <= i && i + |sep| <= |s| && s[i..i + |sep|] == sep
  }

  /** `sep in s` */
  predicate Contains(s: string, sep: string)
  {
    exists i :: 0 <= i <= |s| && OccursAt(s, sep, i)
  }

  /** A substring of a string that does not contain `sep` does not contain it either. */
  lemma {:induction false} SliceNotContains(s: string, sep: string, a: nat, b: nat)
    requires a <= b <= |s|
    requires !Contains(s, sep)
    ensures !Contains(s[a..b], sep)
  {
    if i :| 0 <= i <= b - a && OccursAt(s[a..b], sep, i) {
      forall j | 0 <= j < |sep| ensures s[a + i + j] == sep[j] {
        assert s[a..b][i..i + |sep|][j] == sep[j];
      }
      assert s[a + i..a + i + |sep|] == sep;
      assert OccursAt(s, sep, a + i);
    }
  }

  lemma StripNotContains(s: string, sep: string)
    requires !Contains(s, sep)
    ensures !Contains(Strip(s), sep)
  {
    var r, t := Strip(s), RStrip(s);
    StripSlice(s);
    SliceNotContains(s, sep, |t| - |r|, |t|);
  }

  // ---------------------------------------------------------------------------
  // split(sep) and sep.join(...)

  /** `s.split(sep)` for a non-empty separator: scanning left to right, every
      occurrence of `sep` that does not overlap an earlier one cuts `s`. */
  function Split(s: string, sep: string): (r: seq<string>)
    requires sep != []
    ensures |r| >= 1
    decreases |s|
  {
    if |s| < |sep| then [s]
    else if s[..|sep|] == sep then [""] + Split(s[|sep|..], sep)
    else
      var t := Split(s[1..], sep);
      [[s[0]] + t[0]] + t[1..]
  }

  /** `sep.join(pieces)` */
  function Join(pieces: seq<string>, sep: string): string
  {
    if |pieces| == 0 then ""
    else if |pieces| == 1 then pieces[0]
    else pieces[0] + sep + Join(pieces[1..], sep)
  }

  lemma JoinCons(x: string, t: seq<string>, sep: string)
    requires |t| >= 1
    ensures Join([x] + t, sep) == x + sep + Join(t, sep)
  {
    assert ([x] + t)[1..] == t;
  }

  /** `x + sep.join(t)` glues onto the first piece. */
  lemma {:induction false} JoinGlueHead(x: string, t: seq<string>, sep: string)
    requires |t| >= 1
    ensures Join([x + t[0]] + t[1..], sep) == x + Join(t, sep)
  {
    if |t| > 1 {
      JoinCons(x + t[0], t[1..], sep);
      JoinCons(t[0], t[1..], sep);
      assert [t[0]] + t[1..] == t;
    } else {
      assert [x + t[0]] + t[1..] == [x + t[0]];
    }
  }

  /** Joining the pieces of a split gives the original string back. */
  lemma {:induction false} JoinSplit(s: string, sep: string)
    requires sep != []
    ensures Join(Split(s, sep), sep) == s
    decreases |s|
  {
    if |s| < |sep| {
    } else if s[..|sep|] == sep {
      var t := Split(s[|sep|..], sep);
      assert Split(s, sep) == [""] + t;
      JoinSplit(s[|sep|..], sep);
      JoinCons("", t, sep);
      assert s == "" + sep + s[|sep|..];
    } else {
      var t := Split(s[1..], sep);
      assert Split(s, sep) == [[s[0]] + t[0]] + t[1..];
      JoinSplit(s[1..], sep);
      JoinGlueHead([s[0]], t, sep);
      assert s == [s[0]] + s[1..];
    }
  }

  /** Joining two non-empty lists is joining each and putting `sep` between. */
  lemma {:induction false} JoinAppend(a: seq<string>, b: seq<string>, sep: string)
    requires |a| >= 1 && |b| >= 1
    ensures Join(a + b, sep) == Join(a, sep) + sep + Join(b, sep)
  {
    if |a| == 1 {
      JoinCons(a[0], b, sep);
    } else {
      JoinAppend(a[1..], b, sep);
      assert (a + b)[1..] == a[1..] + b;
      JoinCons(a[0], a[1..] + b, sep);
    }
  }

  /** The first piece of a join is a prefix of it. */
  lemma JoinHeadPrefix(t: seq<string>, sep: string)
    requires |t| >= 1
    ensures |t[0]| <= |Join(t, sep)| && Join(t, sep)[..|t[0]|] == t[0]
  {
  }

  /** Occurrences in `[c] + w` away from the front are occurrences in `w`. */
  lemma OccursAfterHead(c: char, w: string, sep: string, i: int)
    requires i >= 1 && OccursAt([c] + w, sep, i)
    ensures OccursAt(w, sep, i - 1)
  {
    assert ([c] + w)[i..i + |sep|] == w[i - 1..i - 1 + |sep|];
  }

  /** The first piece glued by `Split` when `s` does not start with `sep`
      inherits freedom from `sep` from the first piece of the rest. */
  lemma GluedHeadFree(s: string, sep: string, t: seq<string>)
    requires sep != [] && |s| >= |sep| && s[..|sep|] != sep
    requires |t| >= 1 && Join(t, sep) == s[1..] && !Contains(t[0], sep)
    ensures !Contains([s[0]] + t[0], sep)
  {
    var h := [s[0]] + t[0];
    JoinHeadPrefix(t, sep);
    var u := s[1..];
    assert |t[0]| <= |u| && u[..|t[0]|] == t[0];
    assert s[..|h|] == h;
    if i :| 0 <= i <= |h| && OccursAt(h, sep, i) {
      if i == 0 {
        assert false;
      } else {
        OccursAfterHead(s[0], t[0], sep, i);
      }
    }
  }

  /** No piece of a split contains the separator. */
  lemma {:induction false} SplitPiecesFree(s: string, sep: string)
    requires sep != []
    ensures forall k :: 0 <= k < |Split(s, sep)| ==> !Contains(Split(s, sep)[k], sep)
    decreases |s|
  {
    var r := Split(s, sep);
    if |s| < |sep| {
      assert r == [s];
      if i :| 0 <= i <= |s| && OccursAt(s, sep, i) { assert false; }
    } else if s[..|sep|] == sep {
      var t := Split(s[|sep|..], sep);
      assert r == [""] + t;
      SplitPiecesFree(s[|sep|..], sep);
      if i :| 0 <= i <= 0 && OccursAt("", sep, i) { assert false; }
      assert forall k :: 1 <= k < |r| ==> r[k] == t[k - 1];
    } else {
      var t := Split(s[1..], sep);
      assert r == [[s[0]] + t[0]] + t[1..];
      SplitPiecesFree(s[1..], sep);
      JoinSplit(s[1..], sep);
      GluedHeadFree(s, sep, t);
      assert forall k :: 1 <= k < |r| ==> r[k] == t[k];
    }
  }

  /** A string in which `sep` does not occur splits into itself alone. */
  lemma {:induction false} SplitWithout(a: string, sep: string)
    requires sep != [] && !Contains(a, sep)
    ensures Split(a, sep) == [a]
    decreases |a|
  {
    if |a| >= |sep| {
      if a[..|sep|] == sep { assert OccursAt(a, sep, 0); }
      SliceNotContains(a, sep, 1, |a|);
      assert a[1..|a|] == a[1..];
      SplitWithout(a[1..], sep);
      assert [a[0]] + a[1..] == a;
    }
  }

  /** `a` can stand before a separator without the separator being found
      earlier: `sep` does not occur in `a` followed by all but the last
      character of `sep`. */
  predicate Separable(a: string, sep: string)
    requires sep != []
  {
    !Contains(a + sep[..|sep| - 1], sep)
  }

  /** When `a` is separable, the first cut of `a + sep + rest` is right after `a`. */
  lemma {:induction false} SplitAfter(a: string, rest: string, sep: string)
    requires sep != [] && Separable(a, sep)
    ensures Split(a + sep + rest, sep) == [a] + Split(rest, sep)
    decreases |a|
  {
    var s := a + sep + rest;
    if a == [] {
      assert s[..|sep|] == sep && s[|sep|..] == rest;
    } else {
      var u := a + sep[..|sep| - 1];
      assert s[..|sep|] == u[..|sep|];
      if s[..|sep|] == sep { assert OccursAt(u, sep, 0); }
      SliceNotContains(u, sep, 1, |u|);
      assert u[1..|u|] == a[1..] + sep[..|sep| - 1];
      SplitAfter(a[1..], rest, sep);
      assert s[1..] == a[1..] + sep + rest;
      assert [a[0]] + a[1..] == a;
    }
  }

  /** Splitting a join gives the pieces back when each piece is separable. */
  lemma {:induction false} SplitJoin(ps: seq<string>, sep: string)
    requires sep != [] && |ps| >= 1
    requires forall k :: 0 <= k < |ps| ==> Separable(ps[k], sep)
    ensures Split(Join(ps, sep), sep) == ps
  {
    if |ps| == 1 {
      SliceNotContains(ps[0] + sep[..|sep| - 1], sep, 0, |ps[0]|);
      assert (ps[0] + sep[..|sep| - 1])[0..|ps[0]|] == ps[0];
      SplitWithout(ps[0], sep);
    } else {
      SplitJoin(ps[1..], sep);
      SplitAfter(ps[0], Join(ps[1..], sep), sep);
      assert [ps[0]] + ps[1..] == ps;
    }
  }

  // ---------------------------------------------------------------------------
  // split() without a separator

  /** Length of the longest prefix of `s` free of whitespace. */
  function WordLen(s: string): (n: nat)
    ensures n <= |s|
    ensures forall i :: 0 <= i < n ==> !IsSpace(s[i])
    ensures n < |s| ==> IsSpace(s[n])
  {
    if s == [] || IsSpace(s[0]) then 0 else 1 + WordLen(s[1..])
  }

  predicate IsWord(w: string)
  {
    w != [] && forall i :: 0 <= i < |w| ==> !IsSpace(w[i])
  }

  /** `s.split()`: the maximal runs of non-whitespace characters, in order. */
  function Words(s: string): (ws: seq<string>)
    ensures forall k :: 0 <= k < |ws| ==> IsWord(ws[k])
    decreases |s|
  {
    if s == [] then []
    else if IsSpace(s[0]) then Words(s[1..])
    else
      var n := WordLen(s);
      [s[..n]] + Words(s[n..])
  }

  lemma {:induction false} WordLenOfWord(w: string, t: string)
    requires IsWord(w) && (t == [] || IsSpace(t[0]))
    ensures WordLen(w + t) == |w|
    decreases |w|
  {
    if |w| > 1 {
      assert (w + t)[1..] == w[1..] + t;
      WordLenOfWord(w[1..], t);
    } else {
      assert (w + t)[1..] == t;
    }
  }

  /** Leading whitespace does not change the words. */
  lemma {:induction false} WordsSkipSpace(a: string, s: string)
    requires AllSpace(a)
    ensures Words(a + s) == Words(s)
    decreases |a|
  {
    if a != [] {
      assert (a + s)[0] == a[0] && IsSpace(a[0]);
      assert (a + s)[1..] == a[1..] + s;
      assert Words(a + s) == Words((a + s)[1..]);
      WordsSkipSpace(a[1..], s);
    } else {
      assert a + s == s;
    }
  }

  lemma {:induction false} WordLenPrefix(s: string, t: string)
    requires WordLen(s) < |s| || t == [] || IsSpace(t[0])
    ensures WordLen(s + t) == WordLen(s)
    decreases |s|
  {
    if s != [] && !IsSpace(s[0]) {
      assert (s + t)[1..] == s[1..] + t;
      WordLenPrefix(s[1..], t);
    }
  }

  /** Trailing whitespace does not change the words. */
  lemma {:induction false} WordsDropTrailing(s: string, t: string)
    requires AllSpace(t)
    ensures Words(s + t) == Words(s)
    decreases |s|
  {
    if s == [] {
      assert s + t == t && t + [] == t;
      WordsSkipSpace(t, []);
    } else if IsSpace(s[0]) {
      assert (s + t)[1..] == s[1..] + t;
      WordsDropTrailing(s[1..], t);
    } else {
      WordLenPrefix(s, t);
      var n := WordLen(s);
      var u := s + t;
      assert u[0] == s[0] && !IsSpace(u[0]);
      assert WordLen(u) == n && n >= 1;
      assert u[..n] == s[..n];
      assert u[n..] == s[n..] + t;
      WordsDropTrailing(s[n..], t);
      assert Words(u) == [u[..n]] + Words(u[n..]);
    }
  }

  /** A string without whitespace is one word. */
  lemma WordsOfWord(w: string)
    requires IsWord(w)
    ensures Words(w) == [w]
  {
    WordLenOfWord(w, []);
    assert w + [] == w;
    assert w[..|w|] == w && w[|w|..] == [];
  }

  lemma {:induction false} WordsBeforeSpace(a: string, t: string)
    requires t != [] && IsSpace(t[0])
    ensures Words(a + t) == Words(a) + Words(t[1..])
    decreases |a|
  {
    if a == [] {
      assert a + t == t;
    } else if IsSpace(a[0]) {
      assert (a + t)[0] == a[0] && (a + t)[1..] == a[1..] + t;
      WordsBeforeSpace(a[1..], t);
    } else {
      var n := WordLen(a);
      var u := a + t;
      WordLenPrefix(a, t);
      assert u[0] == a[0];
      assert u[..n] == a[..n] && u[n..] == a[n..] + t;
      WordsBeforeSpace(a[n..], t);
    }
  }

  /** Any whitespace character separates: the words of `a + [c] + b` are the
      words of `a` followed by those of `b`. Together with `WordsOfWord` and
      `Words("") == []` this determines `split()` on every string. */
  lemma WordsAtSpace(a: string, c: char, b: string)
    requires IsSpace(c)
    ensures Words(a + [c] + b) == Words(a) + Words(b)
  {
    assert a + [c] + b == a + ([c] + b);
    assert ([c] + b)[1..] == b;
    WordsBeforeSpace(a, [c] + b);
  }

  /** Whitespace on both sides does not change the words. */
  lemma WordsTrim(s: string, b: int, e: int)
    requires 0 <= b <= e <= |s| && AllSpace(s[..b]) && AllSpace(s[e..])
    ensures Words(s) == Words(s[b..e])
  {
    var m := s[b..e];
    assert s[..b] + (m + s[e..]) == s by {
      assert m + s[e..] == s[b..];
    }
    WordsSkipSpace(s[..b], m + s[e..]);
    WordsDropTrailing(m, s[e..]);
  }

  /** `s.strip().split() == s.split()` */
  lemma WordsOfStrip(s: string)
    ensures Words(Strip(s)) == Words(s)
  {
    var b, e := StripBounds(s);
    WordsTrim(s, b, e);
  }

  /** Words joined by single spaces split back into the same words. */
  lemma {:induction false} WordsOfJoin(ws: seq<string>)
    requires forall k :: 0 <= k < |ws| ==> IsWord(ws[k])
    ensures Words(Join(ws, " ")) == ws
  {
    if |ws| == 1 {
      WordLenOfWord(ws[0], []);
      assert ws[0] + [] == ws[0];
    } else if |ws| > 1 {
      var s := Join(ws, " ");
      var rest := Join(ws[1..], " ");
      assert s == ws[0] + (" " + rest);
      WordLenOfWord(ws[0], " " + rest);
      assert s[..|ws[0]|] == ws[0];
      assert s[|ws[0]|..] == " " + rest;
      assert (" " + rest)[1..] == rest;
      WordsOfJoin(ws[1..]);
      assert [ws[0]] + ws[1..] == ws;
    }
  }

  /** Words joined by single spaces: no outer whitespace, no whitespace other
      than `' '`, and never two whitespace characters in a row. */
  lemma {:induction false} JoinWordsShape(ws: seq<string>)
    requires forall k :: 0 <= k < |ws| ==> IsWord(ws[k])
    ensures var s := Join(ws, " ");
      NoOuterSpace(s)
      && (forall i :: 0 <= i < |s| && IsSpace(s[i]) ==> s[i] == ' ')
      && (forall i :: 0 <= i < |s| - 1 ==> !IsSpace(s[i]) || !IsSpace(s[i + 1]))
  {
    if |ws| > 1 {
      JoinWordsShape(ws[1..]);
      var rest := Join(ws[1..], " ");
      var s := Join(ws, " ");
      var w := ws[0];
      assert s == w + " " + rest;
      assert rest != [] by { assert |ws[1..][0]| > 0; }
      forall i | 0 <= i < |s| - 1 ensures !IsSpace(s[i]) || !IsSpace(s[i + 1]) {
        if i < |w| - 1 {
        } else if i == |w| - 1 {
        } else if i == |w| {
          assert s[i + 1] == rest[0];
        } else {
          assert s[i] == rest[i - |w| - 1] && s[i + 1] == rest[i - |w|];
        }
      }
      forall i | 0 <= i < |s| && IsSpace(s[i]) ensures s[i] == ' ' {
        if i > |w| { assert s[i] == rest[i - |w| - 1]; }
      }
      assert s[|s| - 1] == rest[|rest| - 1];
    }
  }

  /** `sum(len(p) for p in ps)` */
  function SumLen(ps: seq<string>): nat
  {
    if ps == [] then 0 else |ps[0]| + SumLen(ps[1..])
  }

  lemma {:induction false} SumLenAppend(a: seq<string>, x: string)
    ensures SumLen(a + [x]) == SumLen(a) + |x|
  {
    if a == [] {
      assert a + [x] == [x];
    } else {
      assert (a + [x])[1..] == a[1..] + [x];
      SumLenAppend(a[1..], x);
    }
  }

  // ---------------------------------------------------------------------------
  // str(n) and zfill

  function DigitChar(d: nat): (c: char)
    requires d < 10
    ensures '0' <= c <= '9'
  {
    (d + '0' as int) as char
  }

  /** `str(n)` for a natural number: its decimal digits, no leading zero. */
  function Decimal(n: nat): (s: string)
    ensures |s| >= 1
    ensures forall i :: 0 <= i < |s| ==> '0' <= s[i] <= '9'
  {
    if n < 10 then [DigitChar(n)] else Decimal(n / 10) + [DigitChar(n % 10)]
  }

  function Zeros(k: nat): (s: string)
    ensures |s| == k && forall i :: 0 <= i < k ==> s[i] == '0'
  {
    if k == 0 then "" else "0" + Zeros(k - 1)
  }

  /** `s.zfill(width)` for a string without a sign: pads with '0' on the left
      up to `width` characters. */
  function ZFill(s: string, width: nat): (r: string)
    ensures |r| == if |s| >= width then |s| else width
  {
    if |s| >= width then s else Zeros(width - |s|) + s
  }

  /** `int(s)` for a string of decimal digits. */
  function ParseDecimal(s: string): nat
    requires forall i :: 0 <= i < |s| ==> '0' <= s[i] <= '9'
  {
    if s == [] then 0 else ParseDecimal(s[..|s| - 1]) * 10 + (s[|s| - 1] as int - '0' as int)
  }

  lemma {:induction false} ParseDecimalOf(n: nat)
    ensures ParseDecimal(Decimal(n)) == n
  {
    if n >= 10 {
      var s := Decimal(n);
      assert s[..|s| - 1] == Decimal(n / 10);
      ParseDecimalOf(n / 10);
    }
  }

  lemma {:induction false} ParseLeadingZeros(k: nat, s: string)
    requires forall i :: 0 <= i < |s| ==> '0' <= s[i] <= '9'
    ensures ParseDecimal(Zeros(k) + s) == ParseDecimal(s)
    decreases |s|
  {
    if s == [] {
      assert Zeros(k) + s == Zeros(k);
      ParseZeros(k);
    } else {
      assert (Zeros(k) + s)[..|Zeros(k) + s| - 1] == Zeros(k) + s[..|s| - 1];
      ParseLeadingZeros(k, s[..|s| - 1]);
    }
  }

  lemma {:induction false} ParseZeros(k: nat)
    ensures ParseDecimal(Zeros(k)) == 0
  {
    if k > 0 {
      assert Zeros(k)[..k - 1] == Zeros(k - 1) by {
        ZerosAppend(k - 1);
      }
      ParseZeros(k - 1);
    }
  }

  lemma {:induction false} ZerosAppend(k: nat)
    ensures Zeros(k + 1) == Zeros(k) + "0"
  {
    if k > 0 { ZerosAppend(k - 1); }
  }

  /** A zero-padded decimal still reads back as the number it was made from. */
  lemma ParseZFill(n: nat, width: nat)
    ensures var s := ZFill(Decimal(n), width);
      (forall i :: 0 <= i < |s| ==> '0' <= s[i] <= '9') && ParseDecimal(s) == n
  {
    var d := Decimal(n);
    ParseDecimalOf(n);
    if |d| < width {
      var z := Zeros(width - |d|);
      assert ZFill(d, width) == z + d;
      ParseLeadingZeros(width - |d|, d);
      forall i | 0 <= i < |z + d| ensures '0' <= (z + d)[i] <= '9' {
        if i < |z| { assert (z + d)[i] == z[i]; } else { assert (z + d)[i] == d[i - |z|]; }
      }
    }
  }

  /** Different numbers give different zero-padded decimals. */
  lemma ZFillInjective(i: nat, j: nat, width: nat)
    requires ZFill(Decimal(i), width) == ZFill(Decimal(j), width)
    ensures i == j
  {
    ParseZFill(i, width);
    ParseZFill(j, width);
  }

  /** Different numbers give different decimals. */
  lemma DecimalInjective(i: nat, j: nat)
    requires Decimal(i) == Decimal(j)
    ensures i == j
  {
    ParseDecimalOf(i);
    ParseDecimalOf(j);
  }

  /** `str(n)` has fewer than three digits below 100 and three below 1000. */
  lemma {:induction false} DecimalWidth(n: nat)
    ensures n < 10 ==> |Decimal(n)| == 1
    ensures 10 <= n < 100 ==> |Decimal(n)| == 2
    ensures 100 <= n < 1000 ==> |Decimal(n)| == 3
  {
    if n >= 10 { DecimalWidth(n / 10); }
  }

  /** Pieces `a + m + b` and `a + m' + b` are equal only if `m == m'`. */
  lemma MiddleEqual(a: string, m: string, m': string, b: string)
    requires a + m + b == a + m' + b
    ensures m == m'
  {
    assert |m| == |m'|;
    assert m == (a + m + b)[|a|..|a| + |m|];
    assert m' == (a + m' + b)[|a|..|a| + |m'|];
  }
}
