/** `FileHelper.clean_filename` (src/utils/file_helper.py): keeps the
    characters a file name may hold and trims outer whitespace.

    `str.isalnum` consults the Unicode character database; it is a parameter
    `isAlnum` here, so every law below holds whatever that table says. */
module FileHelper {
  import opened PyStr

  /** `c.isalnum() or c in (' ', '-', '_')` */
  predicate Allowed(isAlnum: char -> bool, c: char)
  {
    isAlnum(c) || c == ' ' || c == '-' || c == '_'
  }

  predicate AllAllowed(isAlnum: char -> bool, s: string)
  {
    forall i :: 0 <= i < |s| ==> Allowed(isAlnum, s[i])
  }

  /** `"".join(c for c in filename if ...)`: the allowed characters, in order. */
  function KeepAllowed(isAlnum: char -> bool, s: string): (r: string)
    ensures |r| <= |s|
  {
    if s == [] then []
    else (if Allowed(isAlnum, s[0]) then [s[0]] else []) + KeepAllowed(isAlnum, s[1..])
  }

  /** `clean_filename(filename)` */
  function CleanFilename(isAlnum: char -> bool, filename: string): (r: string)
    ensures |r| <= |filename| && NoOuterSpace(r)
  {
    Strip(KeepAllowed(isAlnum, filename))
  }

  /** `a` occurs in `b` in order at the strictly increasing positions `idx`. */
  predicate EmbedsAt(a: string, b: string, idx: seq<int>)
  {
    |idx| == |a|
    && (forall j :: 0 <= j < |a| ==> 0 <= idx[j] < |b| && a[j] == b[idx[j]])
    && (forall j, l :: 0 <= j < l < |a| ==> idx[j] < idx[l])
  }

  lemma {:induction false} KeepAllowedAllowed(isAlnum: char -> bool, s: string)
    ensures AllAllowed(isAlnum, KeepAllowed(isAlnum, s))
  {
    if s != [] {
      KeepAllowedAllowed(isAlnum, s[1..]);
    }
  }

  /** A string of allowed characters only passes the filter unchanged. */
  lemma {:induction false} KeepAllowedOfAllowed(isAlnum: char -> bool, s: string)
    requires AllAllowed(isAlnum, s)
    ensures KeepAllowed(isAlnum, s) == s
  {
    if s != [] {
      KeepAllowedOfAllowed(isAlnum, s[1..]);
      assert [s[0]] + s[1..] == s;
    }
  }

  /** A single character is kept exactly when it is allowed. */
  lemma KeepAllowedChar(isAlnum: char -> bool, c: char)
    ensures Allowed(isAlnum, c) ==> KeepAllowed(isAlnum, [c]) == [c]
    ensures !Allowed(isAlnum, c) ==> KeepAllowed(isAlnum, [c]) == []
  {
    assert [c][1..] == [];
  }

  /** The filter works character by character: filtering a concatenation is
      filtering each part. With `KeepAllowedChar` this fixes the result on
      every input, e.g. `"a?b"` gives `"ab"`. */
  lemma {:induction false} KeepAllowedAppend(isAlnum: char -> bool, a: string, b: string)
    ensures KeepAllowed(isAlnum, a + b) == KeepAllowed(isAlnum, a) + KeepAllowed(isAlnum, b)
  {
    if a == [] {
      assert a + b == b;
    } else {
      var head := if Allowed(isAlnum, a[0]) then [a[0]] else [];
      assert (a + b)[0] == a[0] && (a + b)[1..] == a[1..] + b;
      assert KeepAllowed(isAlnum, a + b) == head + KeepAllowed(isAlnum, a[1..] + b);
      assert KeepAllowed(isAlnum, a) == head + KeepAllowed(isAlnum, a[1..]);
      KeepAllowedAppend(isAlnum, a[1..], b);
    }
  }

  function Shift(idx: seq<int>): (r: seq<int>)
    ensures |r| == |idx| && forall j :: 0 <= j < |idx| ==> r[j] == idx[j] + 1
  {
    seq(|idx|, j requires 0 <= j < |idx| => idx[j] + 1)
  }

  lemma ShiftIn(idx: seq<int>, i: int)
    requires forall j :: 0 <= j < |idx| ==> 0 <= idx[j]
    ensures i in Shift(idx) <==> (i > 0 && i - 1 in idx)
  {
    if i in Shift(idx) {
      var j :| 0 <= j < |idx| && Shift(idx)[j] == i;
      assert idx[j] == i - 1;
    }
    if i > 0 && i - 1 in idx {
      var j :| 0 <= j < |idx| && idx[j] == i - 1;
      assert Shift(idx)[j] == i;
    }
  }

  lemma EmbedsSkip(a: string, b: string, idx: seq<int>)
    requires b != [] && EmbedsAt(a, b[1..], idx)
    ensures EmbedsAt(a, b, Shift(idx))
  {
    forall j | 0 <= j < |a| ensures a[j] == b[Shift(idx)[j]] {
      assert b[1..][idx[j]] == b[idx[j] + 1];
    }
  }

  lemma EmbedsTake(a: string, b: string, idx: seq<int>)
    requires b != [] && EmbedsAt(a, b[1..], idx)
    ensures EmbedsAt([b[0]] + a, b, [0] + Shift(idx))
  {
    var a', idx' := [b[0]] + a, [0] + Shift(idx);
    forall j | 0 <= j < |a'| ensures 0 <= idx'[j] < |b| && a'[j] == b[idx'[j]] {
      if j > 0 {
        assert a'[j] == a[j - 1] && idx'[j] == idx[j - 1] + 1;
        assert b[1..][idx[j - 1]] == b[idx[j - 1] + 1];
      }
    }
    forall j, l | 0 <= j < l < |a'| ensures idx'[j] < idx'[l] {
      if j > 0 { assert idx'[j] == idx[j - 1] + 1 && idx'[l] == idx[l - 1] + 1; }
    }
  }

  lemma EmbedsSlice(a: string, b: string, idx: seq<int>, lo: int, hi: int)
    requires EmbedsAt(a, b, idx) && 0 <= lo <= hi <= |a|
    ensures EmbedsAt(a[lo..hi], b, idx[lo..hi])
  {
    var a', idx' := a[lo..hi], idx[lo..hi];
    forall j | 0 <= j < |a'| ensures 0 <= idx'[j] < |b| && a'[j] == b[idx'[j]] {
      assert a'[j] == a[lo + j] && idx'[j] == idx[lo + j];
    }
    forall j, l | 0 <= j < l < |a'| ensures idx'[j] < idx'[l] {
      assert idx'[j] == idx[lo + j] && idx'[l] == idx[lo + l];
    }
  }

  /** `idx` holds exactly the positions of the allowed characters of `s`. */
  predicate SelectsAllowed(isAlnum: char -> bool, s: string, idx: seq<int>)
  {
    forall i :: 0 <= i < |s| ==> (Allowed(isAlnum, s[i]) <==> i in idx)
  }

  /** Positions selected in `s[1..]`, shifted by one, plus 0 when `s[0]` is
      allowed, are the positions selected in `s`. */
  lemma SelectsStep(isAlnum: char -> bool, s: string, tail: seq<int>, idx: seq<int>)
    requires s != [] && SelectsAllowed(isAlnum, s[1..], tail)
    requires forall j :: 0 <= j < |tail| ==> 0 <= tail[j]
    requires idx == (if Allowed(isAlnum, s[0]) then [0] else []) + Shift(tail)
    ensures SelectsAllowed(isAlnum, s, idx)
  {
    forall i | 0 <= i < |s| ensures Allowed(isAlnum, s[i]) <==> i in idx {
      ShiftIn(tail, i);
      if i > 0 {
        assert s[i] == s[1..][i - 1];
      }
    }
  }

  /** The filter keeps an order-preserving selection of the characters, and
      the positions it selects are exactly those of the allowed characters. */
  lemma {:induction false} KeepAllowedEmbeds(isAlnum: char -> bool, s: string) returns (idx: seq<int>)
    ensures EmbedsAt(KeepAllowed(isAlnum, s), s, idx)
    ensures SelectsAllowed(isAlnum, s, idx)
  {
    if s == [] {
      idx := [];
    } else {
      var tail := KeepAllowedEmbeds(isAlnum, s[1..]);
      if Allowed(isAlnum, s[0]) {
        assert KeepAllowed(isAlnum, s) == [s[0]] + KeepAllowed(isAlnum, s[1..]);
        EmbedsTake(KeepAllowed(isAlnum, s[1..]), s, tail);
        idx := [0] + Shift(tail);
      } else {
        assert KeepAllowed(isAlnum, s) == KeepAllowed(isAlnum, s[1..]);
        EmbedsSkip(KeepAllowed(isAlnum, s[1..]), s, tail);
        idx := Shift(tail);
      }
      SelectsStep(isAlnum, s, tail, idx);
    }
  }

  lemma AllAllowedSlice(isAlnum: char -> bool, s: string, b: int, e: int)
    requires AllAllowed(isAlnum, s) && 0 <= b <= e <= |s|
    ensures AllAllowed(isAlnum, s[b..e])
  {
    forall i | 0 <= i < e - b ensures Allowed(isAlnum, s[b..e][i]) {
      assert s[b..e][i] == s[b + i];
    }
  }

  /** Every character of the result is alphanumeric, `' '`, `'-'` or `'_'`,
      and the result has no leading or trailing whitespace. */
  lemma CleanFilenameAllowed(isAlnum: char -> bool, filename: string)
    ensures AllAllowed(isAlnum, CleanFilename(isAlnum, filename))
    ensures NoOuterSpace(CleanFilename(isAlnum, filename))
  {
    var k := KeepAllowed(isAlnum, filename);
    var b, e := StripBounds(k);
    KeepAllowedAllowed(isAlnum, filename);
    AllAllowedSlice(isAlnum, k, b, e);
  }

  /** The result is the input with characters removed, the rest kept in order;
      so it is never longer than the input. */
  lemma CleanFilenameSubsequence(isAlnum: char -> bool, filename: string) returns (idx: seq<int>)
    ensures EmbedsAt(CleanFilename(isAlnum, filename), filename, idx)
    ensures |CleanFilename(isAlnum, filename)| <= |filename|
  {
    var k := KeepAllowed(isAlnum, filename);
    var b, e := StripBounds(k);
    var ki := KeepAllowedEmbeds(isAlnum, filename);
    EmbedsSlice(k, filename, ki, b, e);
    idx := ki[b..e];
  }

  /** A name of allowed characters without outer whitespace is already clean. */
  lemma CleanFilenameOfClean(isAlnum: char -> bool, filename: string)
    requires AllAllowed(isAlnum, filename) && NoOuterSpace(filename)
    ensures CleanFilename(isAlnum, filename) == filename
  {
    KeepAllowedOfAllowed(isAlnum, filename);
    StripOfTrimmed(filename);
  }

  /** Cleaning twice is cleaning once. */
  lemma CleanFilenameIdempotent(isAlnum: char -> bool, filename: string)
    ensures CleanFilename(isAlnum, CleanFilename(isAlnum, filename)) == CleanFilename(isAlnum, filename)
  {
    CleanFilenameAllowed(isAlnum, filename);
    CleanFilenameOfClean(isAlnum, CleanFilename(isAlnum, filename));
  }
}
