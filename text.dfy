/**
 * The Python string built-ins that the scraper and the download sorter lean
 * on: case mapping, `isupper`, `isdigit` with `int`, the whitespace set used by
 * `strip` and `split`, `join`, and the substring test of `in`. Case mapping and
 * digits cover ASCII only; the whitespace set is Python's own.
 */
module Text {

  predicate IsAsciiUpper(c: char) { 'A' <= c <= 'Z' }

  predicate IsAsciiLower(c: char) { 'a' <= c <= 'z' }

  function LowerChar(c: char): char
  {
    if IsAsciiUpper(c) then (c as int + 32) as char else c
  }

  function UpperChar(c: char): char
  {
    if IsAsciiLower(c) then (c as int - 32) as char else c
  }

  /** `str.lower()` */
  function Lower(s: string): (r: string)
    ensures |r| == |s| && forall i :: 0 <= i < |s| ==> r[i] == LowerChar(s[i])
  {
    seq(|s|, i requires 0 <= i < |s| => LowerChar(s[i]))
  }

  /** `str.upper()` */
  function Upper(s: string): (r: string)
    ensures |r| == |s| && forall i :: 0 <= i < |s| ==> r[i] == UpperChar(s[i])
  {
    seq(|s|, i requires 0 <= i < |s| => UpperChar(s[i]))
  }

  /** Two strings that agree once lower-cased also agree once upper-cased, so
      either case mapping can serve as the case-insensitive comparison. */
  lemma CaseFoldingAgrees(s: string, t: string)
    ensures Lower(s) == Lower(t) <==> Upper(s) == Upper(t)
  {
    if Lower(s) == Lower(t) {
      assert |s| == |t|;
      forall i | 0 <= i < |s| ensures Upper(s)[i] == Upper(t)[i] {
        assert Lower(s)[i] == Lower(t)[i];
      }
    }
    if Upper(s) == Upper(t) {
      assert |s| == |t|;
      forall i | 0 <= i < |s| ensures Lower(s)[i] == Lower(t)[i] {
        assert Upper(s)[i] == Upper(t)[i];
      }
    }
  }

  lemma LowerIdempotent(s: string)
    ensures Lower(Lower(s)) == Lower(s)
  {
  }

  /** `str.isupper()`: some cased character and no lower-case one. */
  predicate IsUpper(s: string)
  {
    (exists i :: 0 <= i < |s| && IsAsciiUpper(s[i])) && forall i :: 0 <= i < |s| ==> !IsAsciiLower(s[i])
  }

  /** A string that `isupper` accepts is its own upper-case form. */
  lemma IsUpperFixed(s: string)
    requires IsUpper(s)
    ensures Upper(s) == s
  {
  }

  predicate IsDigit(c: char) { '0' <= c <= '9' }

  /** `str.isdigit()`: non-empty and digits only. */
  predicate IsDigits(s: string)
  {
    |s| > 0 && forall i :: 0 <= i < |s| ==> IsDigit(s[i])
  }

  /** `int(s)` for a string of decimal digits, leading zeros allowed. */
  function DigitsValue(s: string): nat
    requires IsDigits(s)
  {
    var d := s[|s| - 1] as int - '0' as int;
    if |s| == 1 then d else 10 * DigitsValue(s[..|s| - 1]) + d
  }

  /** `str(n)` for a natural number. */
  function Decimal(n: nat): (s: string)
    ensures IsDigits(s)
  {
    var last := ((n % 10) + '0' as int) as char;
    if n < 10 then [last] else Decimal(n / 10) + [last]
  }

  /** Reading back the decimal form of a number gives the number. */
  lemma {:induction false} DecimalRoundTrip(n: nat)
    ensures DigitsValue(Decimal(n)) == n
  {
    var s := Decimal(n);
    if n >= 10 {
      DecimalRoundTrip(n / 10);
      assert s[..|s| - 1] == Decimal(n / 10);
    }
  }

  /** The characters that Python's `str.isspace` accepts, and so the
      separators of `split()` and the characters `strip()` removes. */
  predicate IsSpace(c: char)
  {
    var n := c as int;
    n == 0x20 || 0x09 <= n <= 0x0d || 0x1c <= n <= 0x1f || n == 0x85 || n == 0xa0
    || n == 0x1680 || 0x2000 <= n <= 0x200a || n == 0x2028 || n == 0x2029
    || n == 0x202f || n == 0x205f || n == 0x3000
  }

  predicate NoSpace(s: string)
  {
    forall i :: 0 <= i < |s| ==> !IsSpace(s[i])
  }

  /** `s` without its leading whitespace. */
  function TrimStart(s: string): string
  {
    if s == [] || !IsSpace(s[0]) then s else TrimStart(s[1..])
  }

  /** `s` without its trailing whitespace. */
  function TrimEnd(s: string): string
  {
    if s == [] || !IsSpace(s[|s| - 1]) then s else TrimEnd(s[..|s| - 1])
  }

  /** Trimming the front leaves a tail of `s` that starts with a non-space, and
      everything cut off was whitespace. */
  lemma {:induction false} TrimStartSpec(s: string)
    ensures |TrimStart(s)| <= |s| && TrimStart(s) == s[|s| - |TrimStart(s)|..]
    ensures TrimStart(s) == [] || !IsSpace(TrimStart(s)[0])
    ensures forall i :: 0 <= i < |s| - |TrimStart(s)| ==> IsSpace(s[i])
  {
    if s != [] && IsSpace(s[0]) {
      var t := s[1..];
      TrimStartSpec(t);
      var r := TrimStart(t);
      assert TrimStart(s) == r;
      assert t[|t| - |r|..] == s[|s| - |r|..];
      forall i | 0 <= i < |s| - |r| ensures IsSpace(s[i]) {
        if i > 0 {
          assert s[i] == t[i - 1];
        }
      }
    }
  }

  /** Trimming the back leaves a head of `s` that ends with a non-space, and
      everything cut off was whitespace. */
  lemma {:induction false} TrimEndSpec(s: string)
    ensures |TrimEnd(s)| <= |s| && TrimEnd(s) == s[..|TrimEnd(s)|]
    ensures TrimEnd(s) == [] || !IsSpace(TrimEnd(s)[|TrimEnd(s)| - 1])
    ensures forall i :: |TrimEnd(s)| <= i < |s| ==> IsSpace(s[i])
  {
    if s != [] && IsSpace(s[|s| - 1]) {
      var t := s[..|s| - 1];
      TrimEndSpec(t);
      var r := TrimEnd(t);
      assert TrimEnd(s) == r;
      assert t[..|r|] == s[..|r|];
      forall i | |r| <= i < |s| ensures IsSpace(s[i]) {
        if i < |t| {
          assert s[i] == t[i];
        }
      }
    }
  }

  /** `str.strip()` */
  function Strip(s: string): string
  {
    TrimEnd(TrimStart(s))
  }

  /** What strip leaves is the slice of `s` between the whitespace at its two
      ends, and it neither starts nor ends with whitespace. */
  lemma StripSpec(s: string)
    ensures var lo := |s| - |TrimStart(s)|;
      && 0 <= lo && lo + |Strip(s)| <= |s| && Strip(s) == s[lo..lo + |Strip(s)|]
      && (forall i :: 0 <= i < lo ==> IsSpace(s[i]))
      && (forall i :: lo + |Strip(s)| <= i < |s| ==> IsSpace(s[i]))
    ensures Strip(s) == [] || (!IsSpace(Strip(s)[0]) && !IsSpace(Strip(s)[|Strip(s)| - 1]))
  {
    var t := TrimStart(s);
    TrimStartSpec(s);
    TrimEndSpec(t);
    var lo := |s| - |t|;
    var r := Strip(s);
    assert r == t[..|r|];
    forall i | lo + |r| <= i < |s| ensures IsSpace(s[i]) {
      assert s[i] == t[i - lo];
    }
  }

  lemma StripIdempotent(s: string)
    ensures Strip(Strip(s)) == Strip(s)
  {
    StripSpec(s);
    var r := Strip(s);
    if r != [] {
      assert TrimStart(r) == r;
      assert TrimEnd(r) == r;
    }
  }

  /** The longest prefix of `s` without whitespace. */
  function Word(s: string): (w: string)
    ensures |w| <= |s| && w == s[..|w|] && NoSpace(w)
    ensures |w| == |s| || IsSpace(s[|w|])
    ensures s != [] && !IsSpace(s[0]) ==> |w| > 0
  {
    if s == [] || IsSpace(s[0]) then [] else [s[0]] + Word(s[1..])
  }

  /** `str.split()` without arguments: the maximal runs of non-whitespace. */
  function Split(s: string): (parts: seq<string>)
    ensures forall k :: 0 <= k < |parts| ==> parts[k] != [] && NoSpace(parts[k])
  {
    if s == [] then []
    else if IsSpace(s[0]) then Split(s[1..])
    else
      var w := Word(s);
      [w] + Split(s[|w|..])
  }

  /** `sep.join(parts)` */
  function Join(parts: seq<string>, sep: string): (r: string)
    ensures |parts| == 1 ==> r == parts[0]
  {
    if parts == [] then [] else if |parts| == 1 then parts[0] else parts[0] + sep + Join(parts[1..], sep)
  }

  lemma {:induction false} WordOfJoin(w: string, rest: string)
    requires w != [] && NoSpace(w)
    requires rest == [] || IsSpace(rest[0])
    ensures Word(w + rest) == w
    decreases |w|
  {
    var s := w + rest;
    assert s[0] == w[0] && !IsSpace(w[0]);
    assert s[1..] == w[1..] + rest;
    if |w| > 1 {
      assert NoSpace(w[1..]) by {
        forall i | 0 <= i < |w| - 1 ensures !IsSpace(w[1..][i]) {
          assert w[1..][i] == w[i + 1];
        }
      }
      WordOfJoin(w[1..], rest);
      assert w == [w[0]] + w[1..];
    } else {
      assert s[1..] == rest;
      assert rest == [] || IsSpace(rest[0]);
      assert Word(rest) == [];
    }
  }

  /** A word followed by whitespace or nothing splits off as the first part. */
  lemma SplitWordFirst(w: string, rest: string)
    requires w != [] && NoSpace(w)
    requires rest == [] || IsSpace(rest[0])
    ensures Split(w + rest) == [w] + Split(rest)
  {
    var s := w + rest;
    assert !IsSpace(s[0]);
    WordOfJoin(w, rest);
    assert s[|w|..] == rest;
  }

  lemma SplitOfLeadingSpace(s: string)
    ensures Split(" " + s) == Split(s)
  {
    assert (" " + s)[1..] == s;
  }

  /** Whitespace of any kind and length in front of the text is skipped. */
  lemma {:induction false} SplitSkipsSpace(p: string, s: string)
    requires forall i :: 0 <= i < |p| ==> IsSpace(p[i])
    ensures Split(p + s) == Split(s)
  {
    if p == [] {
      assert p + s == s;
    } else {
      assert (p + s)[0] == p[0];
      assert (p + s)[1..] == p[1..] + s;
      SplitSkipsSpace(p[1..], s);
    }
  }

  /** A word after any run of whitespace, and ended by whitespace or the end
      of the text, splits off first. */
  lemma SplitWordAfterSpace(lead: string, w: string, rest: string)
    requires forall i :: 0 <= i < |lead| ==> IsSpace(lead[i])
    requires w != [] && NoSpace(w)
    requires rest == [] || IsSpace(rest[0])
    ensures Split(lead + (w + rest)) == [w] + Split(rest)
  {
    SplitSkipsSpace(lead, w + rest);
    SplitWordFirst(w, rest);
  }

  /** Two words with any whitespace before, between and after them split into
      those two words, as card text such as "  BTC \t 100 " does. */
  lemma SplitPaddedPair(lead: string, w1: string, gap: string, w2: string, trail: string)
    requires forall i :: 0 <= i < |lead| ==> IsSpace(lead[i])
    requires forall i :: 0 <= i < |gap| ==> IsSpace(gap[i])
    requires forall i :: 0 <= i < |trail| ==> IsSpace(trail[i])
    requires gap != [] && w1 != [] && NoSpace(w1) && w2 != [] && NoSpace(w2)
    ensures Split(lead + (w1 + (gap + (w2 + trail)))) == [w1, w2]
  {
    var tail := gap + (w2 + trail);
    assert Split(lead + (w1 + tail)) == [w1] + Split(tail) by {
      assert tail[0] == gap[0];
      SplitWordAfterSpace(lead, w1, tail);
    }
    assert Split(tail) == [w2] + Split(trail) by {
      SplitWordAfterSpace(gap, w2, trail);
    }
    assert Split(trail) == [] by {
      SplitSkipsSpace(trail, []);
      assert trail + [] == trail;
    }
  }

  /** Splitting words joined by single spaces gives the words back. */
  lemma {:induction false} SplitJoinRoundTrip(words: seq<string>)
    requires forall k :: 0 <= k < |words| ==> words[k] != [] && NoSpace(words[k])
    ensures Split(Join(words, " ")) == words
  {
    if words == [] {
    } else if |words| == 1 {
      SplitWordFirst(words[0], []);
      assert words[0] + [] == words[0];
    } else {
      var tail := Join(words[1..], " ");
      calc {
        Split(Join(words, " "));
        { assert Join(words, " ") == words[0] + (" " + tail); }
        Split(words[0] + (" " + tail));
        { SplitWordFirst(words[0], " " + tail); }
        [words[0]] + Split(" " + tail);
        { SplitOfLeadingSpace(tail); }
        [words[0]] + Split(tail);
        { SplitJoinRoundTrip(words[1..]); }
        [words[0]] + words[1..];
      }
    }
  }

  /** `pat in text` for strings. */
  predicate Occurs(pat: string, text: string)
  {
    exists i | 0 <= i <= |text| - |pat| :: OccursAt(pat, text, i)
  }

  predicate OccursAt(pat: string, text: string, i: int)
  {
    0 <= i && i + |pat| <= |text| && text[i..i + |pat|] == pat
  }

  /** Every part appears in the joined text. */
  lemma {:induction false} JoinContainsParts(parts: seq<string>, sep: string)
    ensures forall k :: 0 <= k < |parts| ==> Occurs(parts[k], Join(parts, sep))
  {
    if |parts| == 1 {
      assert OccursAt(parts[0], Join(parts, sep), 0);
    } else if |parts| > 1 {
      var head := parts[0] + sep;
      var tail := Join(parts[1..], sep);
      var r := Join(parts, sep);
      assert r == head + tail;
      JoinContainsParts(parts[1..], sep);
      forall k | 0 <= k < |parts| ensures Occurs(parts[k], r) {
        if k == 0 {
          assert r[..|parts[0]|] == parts[0];
          assert OccursAt(parts[0], r, 0);
        } else {
          assert parts[k] == parts[1..][k - 1];
          var i :| 0 <= i <= |tail| - |parts[k]| && OccursAt(parts[k], tail, i);
          assert r[|head| + i..|head| + i + |parts[k]|] == tail[i..i + |parts[k]|];
          assert OccursAt(parts[k], r, |head| + i);
        }
      }
    }
  }
}
