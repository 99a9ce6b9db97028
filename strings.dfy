/**
 * The Python `str` primitives the scraper and the front end use, on `seq<char>`:
 * substring test (`in`), `replace`, `split` on one character, `split(pat)[0]`,
 * ASCII `lower`, the `:02x` format and the ordering `sorted` uses.
 */
module Strings {

  /** `pat in s`: `pat` occurs somewhere in `s` (the empty pattern occurs everywhere). */
  predicate Contains(s: string, pat: string)
    decreases |s|
  {
    pat <= s || (|s| > 0 && Contains(s[1..], pat))
  }

  /** `pat` occurs in `s` starting at index `i`. */
  ghost predicate OccursAt(s: string, pat: string, i: int)
  {
    0 <= i && i + |pat| <= |s| && s[i..i + |pat|] == pat
  }

  lemma {:induction false} ContainsIff(s: string, pat: string)
    ensures Contains(s, pat) <==> exists i :: OccursAt(s, pat, i)
    decreases |s|
  {
    if pat <= s {
      assert OccursAt(s, pat, 0);
    } else if |s| > 0 {
      ContainsIff(s[1..], pat);
      assert !OccursAt(s, pat, 0);
      if Contains(s[1..], pat) {
        var i :| OccursAt(s[1..], pat, i);
        OccursShift(s, pat, i);
      } else {
        forall i | OccursAt(s, pat, i) ensures false {
          OccursShift(s, pat, i - 1);
        }
      }
    }
  }

  /** An occurrence at `i + 1` in `s` is an occurrence at `i` in `s[1..]`. */
  lemma OccursShift(s: string, pat: string, i: nat)
    requires |s| > 0
    ensures OccursAt(s, pat, i + 1) <==> OccursAt(s[1..], pat, i)
  {
    if 0 <= i && i + 1 + |pat| <= |s| {
      assert s[1..][i..i + |pat|] == s[i + 1..i + 1 + |pat|];
    }
  }

  /**
   * `s.replace(pat, rep)`: one left-to-right pass that replaces every
   * non-overlapping occurrence of `pat`.
   */
  function Replace(s: string, pat: string, rep: string): string
    requires |pat| > 0
    decreases |s|
  {
    if |s| < |pat| then s
    else if pat <= s then rep + Replace(s[|pat|..], pat, rep)
    else [s[0]] + Replace(s[1..], pat, rep)
  }

  /** Every character of the result comes from `s` or from `rep`. */
  lemma {:induction false} ReplaceChars(s: string, pat: string, rep: string, c: char)
    requires |pat| > 0
    requires c in Replace(s, pat, rep)
    ensures c in s || c in rep
    decreases |s|
  {
    if |s| < |pat| {
    } else if pat <= s {
      if c !in rep {
        ReplaceChars(s[|pat|..], pat, rep, c);
      }
    } else if c != s[0] {
      ReplaceChars(s[1..], pat, rep, c);
    }
  }

  /** Replacing a one-character pattern leaves none of it behind, unless `rep` brings it back. */
  lemma {:induction false} ReplaceCharRemovesAll(s: string, c: char, rep: string)
    requires c !in rep
    ensures c !in Replace(s, [c], rep)
    decreases |s|
  {
    if |s| >= 1 {
      ReplaceCharRemovesAll(s[1..], c, rep);
    }
  }

  /** Nothing to replace: the string comes back as it was. */
  lemma {:induction false} ReplaceAbsent(s: string, pat: string, rep: string)
    requires |pat| > 0
    requires !Contains(s, pat)
    ensures Replace(s, pat, rep) == s
    decreases |s|
  {
    if |s| >= |pat| {
      ReplaceAbsent(s[1..], pat, rep);
    }
  }

  /** A character that does not occur is never replaced. */
  lemma ReplaceAbsentChar(s: string, c: char, rep: string)
    requires c !in s
    ensures Replace(s, [c], rep) == s
  {
    ContainsIff(s, [c]);
    forall i | 0 <= i < |s| ensures !OccursAt(s, [c], i) {
      assert s[i..i + 1] == [s[i]];
    }
    ReplaceAbsent(s, [c], rep);
  }

  /** A one-for-one character replacement keeps the length. */
  lemma {:induction false} ReplaceCharLength(s: string, c: char, d: char)
    ensures |Replace(s, [c], [d])| == |s|
    decreases |s|
  {
    if |s| >= 1 {
      ReplaceCharLength(s[1..], c, d);
    }
  }

  /** A one-for-one character replacement acts at each position independently. */
  lemma {:induction false} ReplaceCharAt(s: string, c: char, d: char, i: nat)
    requires i < |s|
    ensures |Replace(s, [c], [d])| == |s|
    ensures Replace(s, [c], [d])[i] == if s[i] == c then d else s[i]
    decreases |s|
  {
    ReplaceCharLength(s, c, d);
    if i > 0 {
      ReplaceCharAt(s[1..], c, d, i - 1);
    }
  }

  /** A one-for-one character replacement: same length, and each position replaced or kept. */
  lemma ReplaceCharSpec(s: string, c: char, d: char)
    ensures |Replace(s, [c], [d])| == |s|
    ensures forall i :: 0 <= i < |s| ==> Replace(s, [c], [d])[i] == if s[i] == c then d else s[i]
  {
    ReplaceCharLength(s, c, d);
    forall i | 0 <= i < |s| ensures Replace(s, [c], [d])[i] == if s[i] == c then d else s[i] {
      ReplaceCharAt(s, c, d, i);
    }
  }

  /**
   * `replace` splits over a concatenation when no occurrence of `pat` can
   * straddle the seam: the first character of `b` occurs nowhere in `pat`
   * except possibly at its head.
   */
  lemma {:induction false} ReplaceAppend(a: string, b: string, pat: string, rep: string)
    requires |pat| > 0
    requires |b| > 0 ==> b[0] !in pat[1..]
    ensures Replace(a + b, pat, rep) == Replace(a, pat, rep) + Replace(b, pat, rep)
    decreases |a|
  {
    var ab := a + b;
    if |a| == 0 {
      assert ab == b;
    } else if |ab| < |pat| {
      assert Replace(b, pat, rep) == b;
    } else if |a| < |pat| {
      NoStraddle(a, b, pat);
      assert ab[1..] == a[1..] + b;
      ReplaceAppend(a[1..], b, pat, rep);
      assert Replace(a[1..], pat, rep) == a[1..];
    } else if pat <= a {
      assert ab[..|pat|] == a[..|pat|];
      assert ab[|pat|..] == a[|pat|..] + b;
      ReplaceAppend(a[|pat|..], b, pat, rep);
    } else {
      assert ab[..|pat|] == a[..|pat|];
      assert ab[1..] == a[1..] + b;
      ReplaceAppend(a[1..], b, pat, rep);
    }
  }

  /** An occurrence at the head is replaced, and the pass goes on after it. */
  lemma ReplaceHead(pat: string, b: string, rep: string)
    requires |pat| > 0
    ensures Replace(pat + b, pat, rep) == rep + Replace(b, pat, rep)
  {
    assert pat <= pat + b;
    assert (pat + b)[|pat|..] == b;
  }

  /** Deleting a pattern that occurs once, between two texts without it, joins the two. */
  lemma DeleteBetween(a: string, b: string, pat: string)
    requires |pat| > 0 && pat[0] !in pat[1..]
    requires !Contains(a, pat) && !Contains(b, pat)
    ensures Replace(a + pat + b, pat, "") == a + b
  {
    var t := pat + b;
    DeleteHead(pat, b);
    ReplaceAppend(a, t, pat, "");
    ReplaceAbsent(a, pat, "");
    assert a + pat + b == a + t;
  }

  /** Deleting a pattern at the head of a text that has no other occurrence leaves the rest. */
  lemma DeleteHead(pat: string, b: string)
    requires |pat| > 0
    requires !Contains(b, pat)
    ensures Replace(pat + b, pat, "") == b
  {
    ReplaceHead(pat, b, "");
    ReplaceAbsent(b, pat, "");
    assert "" + b == b;
  }

  /** Deleting a final occurrence of a pattern from a text that has no other occurrence. */
  lemma DeleteTail(x: string, pat: string)
    requires |pat| > 0 && pat[0] !in pat[1..]
    requires !Contains(x, pat)
    ensures Replace(x + pat, pat, "") == x
  {
    DeleteBetween(x, "", pat);
    assert x + pat + "" == x + pat;
    assert x + "" == x;
  }

  /** Replacing a character that `h` lacks acts on what follows `h` alone. */
  lemma ReplaceCharAfter(h: string, c: char, tail: string, rep: string)
    requires c !in h
    ensures Replace(h + [c] + tail, [c], rep) == h + rep + Replace(tail, [c], rep)
  {
    assert h + [c] + tail == h + ([c] + tail);
    ReplaceAppend(h, [c] + tail, [c], rep);
    ReplaceAbsentChar(h, c, rep);
    ReplaceHead([c], tail, rep);
  }

  /** No occurrence of `pat` starts inside a too-short `a` and runs into `b`. */
  lemma NoStraddle(a: string, b: string, pat: string)
    requires 0 < |a| < |pat| <= |a + b|
    requires b[0] !in pat[1..]
    ensures !(pat <= a + b)
  {
    assert pat[|a|] == pat[1..][|a| - 1];
    assert pat[|a|] != (a + b)[|a|];
  }

  /** An occurrence cannot start inside `a` when `a` lacks the pattern's first character. */
  lemma {:induction false} ContainsSkip(a: string, b: string, pat: string)
    requires |pat| > 0 && pat[0] !in a
    ensures Contains(a + b, pat) ==> Contains(b, pat)
    decreases |a|
  {
    if |a| == 0 {
      assert a + b == b;
    } else {
      assert (a + b)[0] == a[0];
      assert (a + b)[1..] == a[1..] + b;
      ContainsSkip(a[1..], b, pat);
    }
  }

  /** The last piece of a split is whatever follows the last separator. */
  lemma {:induction false} SplitLast(x: string, y: string, sep: char)
    requires sep !in y
    ensures var pieces := SplitOn(x + [sep] + y, sep); pieces[|pieces| - 1] == y
    decreases |x|
  {
    if |x| == 0 {
      assert x + [sep] + y == [sep] + y;
      assert ([sep] + y)[1..] == y;
      SplitNoSep(y, sep);
    } else {
      var s := x + [sep] + y;
      assert s[0] == x[0] && s[1..] == x[1..] + [sep] + y;
      SplitLast(x[1..], y, sep);
      CountAppend(x[1..], [sep] + y, sep);
      assert x[1..] + [sep] + y == x[1..] + ([sep] + y);
      assert CountChar([sep] + y, sep) >= 1;
    }
  }

  lemma {:induction false} CountAppend(a: string, b: string, c: char)
    ensures CountChar(a + b, c) == CountChar(a, c) + CountChar(b, c)
    decreases |a|
  {
    if |a| == 0 {
      assert a + b == b;
    } else {
      assert (a + b)[1..] == a[1..] + b;
      CountAppend(a[1..], b, c);
    }
  }

  lemma {:induction false} SplitNoSep(x: string, sep: char)
    requires sep !in x
    ensures SplitOn(x, sep) == [x]
    decreases |x|
  {
    if |x| > 0 {
      SplitNoSep(x[1..], sep);
      assert [x[0]] + x[1..] == x;
    }
  }

  lemma {:induction false} SplitCons(x: string, y: string, sep: char)
    requires sep !in x
    ensures SplitOn(x + [sep] + y, sep) == [x] + SplitOn(y, sep)
    decreases |x|
  {
    if |x| == 0 {
      assert x + [sep] + y == [sep] + y;
      assert ([sep] + y)[1..] == y;
    } else {
      SplitCons(x[1..], y, sep);
      assert (x + [sep] + y)[1..] == x[1..] + [sep] + y;
      assert [x[0]] + x[1..] == x;
    }
  }

  /** Number of occurrences of `c` in `s`. */
  function CountChar(s: string, c: char): nat
  {
    if |s| == 0 then 0 else (if s[0] == c then 1 else 0) + CountChar(s[1..], c)
  }

  /** `s.split(sep)` for a one-character separator: empty pieces are kept. */
  function SplitOn(s: string, sep: char): (pieces: seq<string>)
    ensures |pieces| == CountChar(s, sep) + 1
    ensures forall k :: 0 <= k < |pieces| ==> sep !in pieces[k]
  {
    if |s| == 0 then [""]
    else if s[0] == sep then [""] + SplitOn(s[1..], sep)
    else
      var rest := SplitOn(s[1..], sep);
      [[s[0]] + rest[0]] + rest[1..]
  }

  /** `sep.join(pieces)`, the inverse of `SplitOn`. */
  function Join(pieces: seq<string>, sep: char): string
    requires |pieces| > 0
  {
    if |pieces| == 1 then pieces[0] else pieces[0] + [sep] + Join(pieces[1..], sep)
  }

  lemma {:induction false} JoinSplit(s: string, sep: char)
    ensures Join(SplitOn(s, sep), sep) == s
    decreases |s|
  {
    if |s| > 0 {
      JoinSplit(s[1..], sep);
      var rest := SplitOn(s[1..], sep);
      if s[0] != sep && |rest| > 1 {
        assert Join([[s[0]] + rest[0]] + rest[1..], sep)
            == [s[0]] + rest[0] + [sep] + Join(rest[1..], sep);
      }
    }
  }

  lemma {:induction false} SplitJoin(pieces: seq<string>, sep: char)
    requires |pieces| > 0
    requires forall k :: 0 <= k < |pieces| ==> sep !in pieces[k]
    ensures SplitOn(Join(pieces, sep), sep) == pieces
    decreases |pieces|, |pieces[0]|
  {
    if |pieces[0]| > 0 {
      var p := [pieces[0][1..]] + pieces[1..];
      SplitJoin(p, sep);
      assert Join(pieces, sep) == [pieces[0][0]] + Join(p, sep) by {
        if |pieces| > 1 {
          assert Join(p, sep) == pieces[0][1..] + [sep] + Join(pieces[1..], sep);
        }
      }
      assert pieces[0][0] in pieces[0];
      assert [pieces[0][0]] + pieces[0][1..] == pieces[0];
    } else if |pieces| > 1 {
      SplitJoin(pieces[1..], sep);
      assert Join(pieces, sep) == [sep] + Join(pieces[1..], sep);
    }
  }

  /** `s.split(pat)[0]`: everything before the first occurrence of `pat`, or all of `s`. */
  function PrefixBefore(s: string, pat: string): string
    requires |pat| > 0
    decreases |s|
  {
    if pat <= s then ""
    else if |s| == 0 then ""
    else [s[0]] + PrefixBefore(s[1..], pat)
  }

  /**
   * `split(pat)[0]` is a prefix without `pat`; when `s` contains `pat` the
   * first occurrence follows it, and otherwise it is all of `s`.
   */
  lemma PrefixBeforeSpec(s: string, pat: string)
    requires |pat| > 0
    ensures PrefixBefore(s, pat) <= s
    ensures !Contains(PrefixBefore(s, pat), pat)
    ensures Contains(s, pat) ==> PrefixBefore(s, pat) + pat <= s
    ensures !Contains(s, pat) ==> PrefixBefore(s, pat) == s
  {
    PrefixBeforeIsPrefix(s, pat);
    PrefixBeforeLacks(s, pat);
    if Contains(s, pat) {
      PrefixBeforeHits(s, pat);
    } else {
      PrefixBeforeMisses(s, pat);
    }
  }

  lemma {:induction false} PrefixBeforeIsPrefix(s: string, pat: string)
    requires |pat| > 0
    ensures PrefixBefore(s, pat) <= s
    decreases |s|
  {
    if !(pat <= s) && |s| > 0 {
      PrefixBeforeIsPrefix(s[1..], pat);
      PrefixCons(s[0], PrefixBefore(s[1..], pat), s[1..]);
      assert [s[0]] + s[1..] == s;
    }
  }

  lemma {:induction false} PrefixBeforeLacks(s: string, pat: string)
    requires |pat| > 0
    ensures !Contains(PrefixBefore(s, pat), pat)
    decreases |s|
  {
    if !(pat <= s) && |s| > 0 {
      var t := PrefixBefore(s[1..], pat);
      var r := [s[0]] + t;
      PrefixBeforeLacks(s[1..], pat);
      PrefixBeforeIsPrefix(s, pat);
      assert r[1..] == t;
      if pat <= r {
        PrefixTrans(pat, r, s);
      }
    }
  }

  lemma {:induction false} PrefixBeforeHits(s: string, pat: string)
    requires |pat| > 0 && Contains(s, pat)
    ensures PrefixBefore(s, pat) + pat <= s
    decreases |s|
  {
    if !(pat <= s) {
      var t := PrefixBefore(s[1..], pat);
      PrefixBeforeHits(s[1..], pat);
      PrefixCons(s[0], t + pat, s[1..]);
      assert [s[0]] + s[1..] == s;
      assert [s[0]] + t + pat == [s[0]] + (t + pat);
    }
  }

  lemma {:induction false} PrefixBeforeMisses(s: string, pat: string)
    requires |pat| > 0 && !Contains(s, pat)
    ensures PrefixBefore(s, pat) == s
    decreases |s|
  {
    if |s| > 0 {
      PrefixBeforeMisses(s[1..], pat);
      assert [s[0]] + s[1..] == s;
    }
  }

  lemma PrefixCons(c: char, a: string, b: string)
    requires a <= b
    ensures [c] + a <= [c] + b
  {
    assert ([c] + b)[..|a| + 1] == [c] + b[..|a|];
  }

  lemma PrefixTrans(a: string, b: string, c: string)
    requires a <= b && b <= c
    ensures a <= c
  {
    assert c[..|a|] == b[..|a|];
  }

  /** `split(pat)[0]` passes over a prefix without `pat` when no occurrence straddles the seam. */
  lemma {:induction false} PrefixBeforeAppend(x: string, y: string, pat: string)
    requires |pat| > 0
    requires !Contains(x, pat)
    requires |y| > 0 ==> y[0] !in pat[1..]
    ensures PrefixBefore(x + y, pat) == x + PrefixBefore(y, pat)
    decreases |x|
  {
    if |x| == 0 {
      assert x + y == y;
    } else {
      var xy := x + y;
      assert !(pat <= x) && !Contains(x[1..], pat);
      assert !(pat <= xy) by {
        if |x| < |pat| {
          if |pat| <= |xy| {
            NoStraddle(x, y, pat);
          }
        } else {
          assert xy[..|pat|] == x[..|pat|];
        }
      }
      assert xy[0] == x[0] && xy[1..] == x[1..] + y;
      PrefixBeforeAppend(x[1..], y, pat);
    }
  }

  /** The text before the first occurrence, when that occurrence follows `x`. */
  lemma PrefixBeforeHit(x: string, pat: string, rest: string)
    requires |pat| > 0 && pat[0] !in pat[1..]
    requires !Contains(x, pat)
    ensures PrefixBefore(x + pat + rest, pat) == x
  {
    PrefixBeforeAppend(x, pat + rest, pat);
    assert x + pat + rest == x + (pat + rest);
    assert pat <= pat + rest;
  }

  /** Python `str.lower()` restricted to ASCII: `A`-`Z` become `a`-`z`, everything else is kept. */
  function LowerChar(c: char): (d: char)
  {
    if 'A' <= c <= 'Z' then (c as int + 32) as char else c
  }

  function Lower(s: string): (r: string)
    ensures |r| == |s|
    ensures forall i :: 0 <= i < |s| ==> r[i] == LowerChar(s[i])
  {
    if |s| == 0 then "" else [LowerChar(s[0])] + Lower(s[1..])
  }

  const HexDigits := "0123456789abcdef"

  /** `f"{n:02x}"`: lower-case hexadecimal, zero-padded to at least two digits. */
  function Format02x(n: nat): string
  {
    var h := Hex(n);
    if |h| < 2 then ['0'] + h else h
  }

  /** The hexadecimal digits of `n`, with no leading zeros (but `0` is "0"). */
  function Hex(n: nat): string
    decreases n
  {
    if n < 16 then [HexDigits[n]] else Hex(n / 16) + [HexDigits[n % 16]]
  }

  /** The value of one lower-case hexadecimal digit. */
  function DigitValue(c: char): nat
  {
    if '0' <= c <= '9' then c as int - '0' as int
    else if 'a' <= c <= 'f' then c as int - 'a' as int + 10
    else 0
  }

  /** Reading a string of hexadecimal digits back as a number. */
  function ParseHex(s: string): nat
  {
    if |s| == 0 then 0 else ParseHex(s[..|s| - 1]) * 16 + DigitValue(s[|s| - 1])
  }

  predicate IsHexDigit(c: char)
  {
    '0' <= c <= '9' || 'a' <= c <= 'f'
  }

  lemma DigitRoundTrip(d: nat)
    requires d < 16
    ensures IsHexDigit(HexDigits[d]) && DigitValue(HexDigits[d]) == d
  {
  }

  lemma {:induction false} HexRoundTrip(n: nat)
    ensures |Hex(n)| > 0
    ensures forall i :: 0 <= i < |Hex(n)| ==> IsHexDigit(Hex(n)[i])
    ensures ParseHex(Hex(n)) == n
    decreases n
  {
    if n < 16 {
      DigitRoundTrip(n);
      assert Hex(n)[..0] == "";
    } else {
      HexRoundTrip(n / 16);
      DigitRoundTrip(n % 16);
      var h := Hex(n);
      assert h[..|h| - 1] == Hex(n / 16);
    }
  }

  lemma {:induction false} HexLength(n: nat)
    ensures n < 16 ==> |Hex(n)| == 1
    ensures 16 <= n < 256 ==> |Hex(n)| == 2
  {
  }

  /**
   * The `:02x` format reads back to the number it came from, uses only
   * lower-case hex digits, and is exactly two digits long below 256.
   */
  lemma {:induction false} Format02xRoundTrip(n: nat)
    ensures ParseHex(Format02x(n)) == n
    ensures forall i :: 0 <= i < |Format02x(n)| ==> IsHexDigit(Format02x(n)[i])
    ensures |Format02x(n)| >= 2
    ensures n < 256 <==> |Format02x(n)| == 2
  {
    HexRoundTrip(n);
    var h := Hex(n);
    if |h| < 2 {
      var f := ['0'] + h;
      assert f[..1] == "0";
      assert ParseHex(f[..1]) == 0 by {
        assert f[..1][..0] == "";
      }
      assert f[..|f| - 1] == f[..1];
    }
    HexLength(n);
    if n >= 256 {
      HexLong(n);
    }
  }

  lemma {:induction false} HexLong(n: nat)
    requires n >= 256
    ensures |Hex(n)| > 2
    decreases n
  {
    if n / 16 >= 256 {
      HexLong(n / 16);
    }
    HexLength(n / 16);
  }

  /** Python's `a < b` on strings: lexicographic by code point, a proper prefix first. */
  predicate Below(a: string, b: string)
  {
    if |a| == 0 then |b| > 0
    else if |b| == 0 then false
    else if a[0] != b[0] then a[0] < b[0]
    else Below(a[1..], b[1..])
  }

  lemma {:induction false} BelowIrreflexive(a: string)
    ensures !Below(a, a)
  {
    if |a| > 0 {
      BelowIrreflexive(a[1..]);
    }
  }

  lemma {:induction false} BelowAsymmetric(a: string, b: string)
    requires Below(a, b)
    ensures !Below(b, a)
  {
    if |a| > 0 && a[0] == b[0] {
      BelowAsymmetric(a[1..], b[1..]);
    }
  }

  lemma {:induction false} BelowTransitive(a: string, b: string, c: string)
    requires Below(a, b) && Below(b, c)
    ensures Below(a, c)
  {
    if |a| > 0 && a[0] == b[0] && b[0] == c[0] {
      BelowTransitive(a[1..], b[1..], c[1..]);
    }
  }

  lemma {:induction false} BelowTotal(a: string, b: string)
    requires a != b
    ensures Below(a, b) || Below(b, a)
  {
    if |a| > 0 && |b| > 0 && a[0] == b[0] {
      assert a == [a[0]] + a[1..] && b == [b[0]] + b[1..];
      BelowTotal(a[1..], b[1..]);
    }
  }
}
