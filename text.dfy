/**
 * The Python string and path operations the gallery relies on, written out:
 * `str.rfind`, `os.path.splitext`, `os.path.basename`, `pathlib.PurePath.suffix`,
 * ASCII `str.lower`, decimal formatting and `int()` on a decimal string.
 */
module Text {
  import opened Wrappers

  /** `s.rfind(c)`: the index of the last occurrence of `c`, or -1. */
  function RFind(s: string, c: char): (i: int)
    ensures -1 <= i < |s|
    ensures i >= 0 ==> s[i] == c
    ensures forall k :: i < k < |s| ==> s[k] != c
  {
    RFindBelow(s, c, |s|)
  }

  /** The last occurrence of `c` before index `j`, or -1; the scan of `rfind` from the end. */
  function RFindBelow(s: string, c: char, j: nat): (i: int)
    requires j <= |s|
    ensures -1 <= i < j
    ensures i >= 0 ==> s[i] == c
    ensures forall k :: i < k < j ==> s[k] != c
    decreases j
  {
    if j == 0 then -1
    else if s[j - 1] == c then j - 1
    else RFindBelow(s, c, j - 1)
  }

  lemma {:induction false} RFindBelowUnique(s: string, c: char, j: nat, i: int)
    requires -1 <= i < j <= |s|
    requires i >= 0 ==> s[i] == c
    requires forall k :: i < k < j ==> s[k] != c
    ensures RFindBelow(s, c, j) == i
    decreases j
  {
    if j > 0 && j - 1 != i {
      RFindBelowUnique(s, c, j - 1, i);
    }
  }

  predicate AllDots(s: string) {
    forall k :: 0 <= k < |s| ==> s[k] == '.'
  }

  /** An extension as `splitext` returns one: a dot, then neither dots nor slashes. */
  predicate IsExtension(e: string) {
    |e| >= 1 && e[0] == '.' && forall k :: 1 <= k < |e| ==> e[k] != '.' && e[k] != '/'
  }

  /**
   * `os.path.splitext(p)` on POSIX: the extension starts at the last dot, provided
   * that dot lies in the last path component and that component has something
   * other than dots before it; otherwise the extension is empty.
   */
  function SplitExt(p: string): (r: (string, string))
    ensures r.1 == "" || IsExtension(r.1)
    ensures r.1 != "" ==> !AllDots(BaseName(r.0))
  {
    var i := ExtStart(p);
    if i < |p| then ExtensionOfTail(p, i); (p[..i], p[i..]) else (p, "")
  }

  /** The root and the extension put together give back the path. */
  lemma SplitExtJoins(p: string)
    ensures SplitExt(p).0 + SplitExt(p).1 == p
  {
    var i := ExtStart(p);
    if i < |p| {
      JoinAt(p, i);
    } else {
      JoinAt(p, |p|);
    }
  }

  lemma JoinAt(p: string, i: nat)
    requires i <= |p|
    ensures p[..i] + p[i..] == p
    ensures i == |p| ==> p + "" == p
  {
    if i == |p| {
      assert p[..i] == p;
    }
  }

  /** Where `splitext` cuts `p`: at the last dot when it qualifies, otherwise at the end. */
  function ExtStart(p: string): (i: nat)
    ensures i <= |p|
    ensures i < |p| ==> p[i] == '.' && !AllDots(BaseName(p[..i]))
    ensures forall k :: i < k < |p| ==> p[k] != '.' && p[k] != '/'
  {
    var sep := RFind(p, '/');
    var dot := RFind(p, '.');
    if dot > sep && !AllDots(p[sep + 1..dot]) then
      BaseNameOfPrefix(p, dot);
      dot
    else
      |p|
  }

  /** A dot followed by neither dots nor slashes up to the end starts an extension. */
  lemma ExtensionOfTail(p: string, i: nat)
    requires i < |p| && p[i] == '.'
    requires forall k :: i < k < |p| ==> p[k] != '.' && p[k] != '/'
    ensures IsExtension(p[i..])
  {
    var e := p[i..];
    forall k | 1 <= k < |e| ensures e[k] != '.' && e[k] != '/' {
      assert e[k] == p[i + k];
    }
  }

  /** `os.path.basename(p)`: everything after the last `/`. */
  function BaseName(p: string): (r: string)
    ensures |r| <= |p|
    ensures forall k :: 0 <= k < |r| ==> r[k] != '/'
  {
    p[RFind(p, '/') + 1..]
  }

  /** `rfind` is fixed by its postconditions: the last occurrence, or -1. */
  lemma RFindUnique(s: string, c: char, i: int)
    requires -1 <= i < |s|
    requires i >= 0 ==> s[i] == c
    requires forall k :: i < k < |s| ==> s[k] != c
    ensures RFind(s, c) == i
  {
    RFindBelowUnique(s, c, |s|, i);
  }

  /** Cutting `p` after its last occurrence of `c` keeps that occurrence the last. */
  lemma RFindPrefix(p: string, c: char, j: nat)
    requires RFind(p, c) < j <= |p|
    ensures RFind(p[..j], c) == RFind(p, c)
  {
    RFindUnique(p[..j], c, RFind(p, c));
  }

  /** Dropping a prefix that ends before the last occurrence of `c` shifts that occurrence. */
  lemma RFindSuffix(p: string, c: char, j: nat)
    requires j <= RFind(p, c)
    ensures RFind(p[j..], c) == RFind(p, c) - j
  {
    var i := RFind(p, c);
    var q := p[j..];
    forall k | i - j < k < |q| ensures q[k] != c {
      assert q[k] == p[j + k];
    }
    assert q[i - j] == p[i];
    RFindUnique(q, c, i - j);
  }

  lemma BaseNameOfPrefix(p: string, j: nat)
    requires RFind(p, '/') < j <= |p|
    ensures BaseName(p[..j]) == p[RFind(p, '/') + 1..j]
  {
    RFindPrefix(p, '/', j);
  }

  /**
   * `splitext` undoes appending an extension: a root whose last component is not
   * all dots, followed by `.` and dot-free, slash-free text, splits back into the two.
   */
  lemma SplitExtOfJoin(root: string, ext: string)
    requires IsExtension(ext)
    requires !AllDots(BaseName(root))
    ensures SplitExt(root + ext) == (root, ext)
  {
    var p := root + ext;
    assert RFind(ext, '.') == 0 by { RFindUnique(ext, '.', 0); }
    assert RFind(ext, '/') == -1 by { RFindUnique(ext, '/', -1); }
    RFindConcat(root, ext, '.');
    RFindConcat(root, ext, '/');
    assert p[..|root|] == root;
    BaseNameOfPrefix(p, |root|);
    assert ExtStart(p) == |root|;
  }

  /** The last occurrence in `a + b` is the last one in `b`, or else the last one in `a`. */
  lemma RFindConcat(a: string, b: string, c: char)
    ensures RFind(a + b, c) == if RFind(b, c) >= 0 then |a| + RFind(b, c) else RFind(a, c)
  {
    var p := a + b;
    var i := RFind(b, c);
    var j := RFind(a, c);
    if i >= 0 {
      forall k | |a| + i < k < |p| ensures p[k] != c {
        assert p[k] == b[k - |a|];
      }
      assert p[|a| + i] == b[i];
      RFindUnique(p, c, |a| + i);
    } else {
      forall k | j < k < |p| ensures p[k] != c {
        if k < |a| { assert p[k] == a[k]; } else { assert p[k] == b[k - |a|]; }
      }
      assert j >= 0 ==> p[j] == a[j];
      RFindUnique(p, c, j);
    }
  }

  /** Appending slash-free text extends the last path component. */
  lemma BaseNameConcat(a: string, b: string)
    requires forall k :: 0 <= k < |b| ==> b[k] != '/'
    ensures BaseName(a + b) == BaseName(a) + b
  {
    RFindUnique(b, '/', -1);
    RFindConcat(a, b, '/');
    var i := RFind(a, '/') + 1;
    assert (a + b)[i..] == a[i..] + b;
  }

  /**
   * `pathlib.PurePosixPath(p).suffix`: the last component's text from its last dot,
   * when that dot is neither the first nor the last character of the component.
   */
  function Suffix(p: string): (r: string)
    ensures r == "" || (|r| >= 2 && IsExtension(r))
  {
    var i := SuffixStart(p);
    if i < |p| then ExtensionOfTail(p, i); p[i..] else ""
  }

  /** Where the suffix of `p` starts: at the last dot of the last component, or at the end. */
  function SuffixStart(p: string): (i: nat)
    ensures i <= |p|
    ensures i < |p| ==> i + 2 <= |p| && p[i] == '.'
    ensures forall k :: i < k < |p| ==> p[k] != '.' && p[k] != '/'
  {
    var j := RFind(p, '/') + 1;
    var name := p[j..];
    var d := RFind(name, '.');
    if 0 < d < |name| - 1 then
      assert forall k :: j + d < k < |p| ==> p[k] == name[k - j];
      j + d
    else
      |p|
  }

  /** The suffix is the tail of the path. */
  lemma SuffixIsTail(p: string)
    ensures |Suffix(p)| <= |p| && Suffix(p) == p[|p| - |Suffix(p)|..]
  {
  }

  /** A slash-free name's suffix starts at its last dot, when that dot is inside the name. */
  lemma SuffixAtLastDot(p: string, i: int)
    requires RFind(p, '/') == -1 && RFind(p, '.') == i && 0 < i < |p| - 1
    ensures Suffix(p) == p[i..]
  {
    assert BaseName(p) == p;
  }

  /** Where `splitext` leaves two or more characters of extension, `suffix` cuts at the same place. */
  lemma SuffixStartIsExtStart(p: string)
    requires |p| - ExtStart(p) >= 2
    ensures SuffixStart(p) == ExtStart(p)
  {
    var sep := RFind(p, '/');
    var dot := RFind(p, '.');
    assert dot > sep + 1 && dot == ExtStart(p);
    var j := sep + 1;
    RFindSuffix(p, '.', j);
    assert RFind(p[j..], '.') == dot - j;
  }

  /** The last occurrence of `c` in `a + [c] + b`, when neither `a` nor `b` holds `c`, is the middle one. */
  lemma RFindMiddle(a: string, b: string, c: char)
    requires forall k :: 0 <= k < |a| ==> a[k] != c
    requires forall k :: 0 <= k < |b| ==> b[k] != c
    ensures RFind(a + ([c] + b), c) == |a|
  {
    RFindUnique(b, c, -1);
    RFindConcat([c], b, c);
    RFindConcat(a, [c] + b, c);
  }

  /** The last occurrence of `c` in `a + [d] + b`, when none of the three holds it, is none. */
  lemma RFindNowhere(a: string, d: char, b: string, c: char)
    requires d != c
    requires forall k :: 0 <= k < |a| ==> a[k] != c
    requires forall k :: 0 <= k < |b| ==> b[k] != c
    ensures RFind(a + ([d] + b), c) == -1
  {
    RFindUnique(b, c, -1);
    RFindUnique(a, c, -1);
    RFindConcat([d], b, c);
    RFindConcat(a, [d] + b, c);
  }

  /** A plain name `stem.ext` (no slashes, one dot, text on both sides) has suffix `.ext`. */
  lemma SuffixOfPlainName(stem: string, ext: string)
    requires |stem| >= 1 && |ext| >= 1
    requires forall k :: 0 <= k < |stem| ==> stem[k] != '/' && stem[k] != '.'
    requires forall k :: 0 <= k < |ext| ==> ext[k] != '/' && ext[k] != '.'
    ensures Suffix(stem + "." + ext) == "." + ext
  {
    var p := stem + (['.'] + ext);
    DotJoin(stem, ext);
    RFindNowhere(stem, '.', ext, '/');
    RFindMiddle(stem, ext, '.');
    SuffixAtLastDot(p, |stem|);
  }

  lemma DotJoin(a: string, b: string)
    ensures a + "." + b == a + (['.'] + b)
    ensures (a + (['.'] + b))[|a|..] == "." + b
  {
    assert a + "." + b == a + ("." + b);
  }

  /** Python's `str.isspace()` for one character: the characters `str.strip()` removes. */
  predicate IsSpace(c: char) {
    var n := c as int;
    || 9 <= n <= 13 || 28 <= n <= 32 || n == 0x85 || n == 0xA0 || n == 0x1680
    || 0x2000 <= n <= 0x200A || n == 0x2028 || n == 0x2029 || n == 0x202F || n == 0x205F || n == 0x3000
  }

  /** The index of the first character at or after `i` that is not whitespace. */
  function SkipSpaces(s: string, i: nat): (j: nat)
    requires i <= |s|
    ensures i <= j <= |s|
    ensures j == |s| || !IsSpace(s[j])
    decreases |s| - i
  {
    if i < |s| && IsSpace(s[i]) then SkipSpaces(s, i + 1) else i
  }

  /** The index just after the last character before `j` that is not whitespace. */
  function TrimEnd(s: string, j: nat): (i: nat)
    requires j <= |s|
    ensures i <= j
    ensures i == 0 || !IsSpace(s[i - 1])
    decreases j
  {
    if j > 0 && IsSpace(s[j - 1]) then TrimEnd(s, j - 1) else j
  }

  /** `s.lstrip()`: `s` without its leading whitespace. */
  function LStrip(s: string): (r: string)
    ensures |r| <= |s|
    ensures r == [] || !IsSpace(r[0])
  {
    s[SkipSpaces(s, 0)..]
  }

  /** A string that does not start with whitespace is its own `lstrip`. */
  lemma LStripKeeps(s: string)
    requires s == [] || !IsSpace(s[0])
    ensures LStrip(s) == s
  {
    assert SkipSpaces(s, 0) == 0;
  }

  /** `s.rstrip()`: `s` without its trailing whitespace. */
  function RStrip(s: string): (r: string)
    ensures |r| <= |s|
    ensures r == [] || !IsSpace(r[|r| - 1])
  {
    s[..TrimEnd(s, |s|)]
  }

  /** A string that does not end in whitespace is its own `rstrip`. */
  lemma RStripKeeps(s: string)
    requires s == [] || !IsSpace(s[|s| - 1])
    ensures RStrip(s) == s
  {
    assert TrimEnd(s, |s|) == |s|;
  }

  lemma {:induction false} SkipSpacesSkipsSpaces(s: string, i: nat)
    requires i <= |s|
    ensures forall k :: i <= k < SkipSpaces(s, i) ==> IsSpace(s[k])
    decreases |s| - i
  {
    if i < |s| && IsSpace(s[i]) {
      SkipSpacesSkipsSpaces(s, i + 1);
    }
  }

  lemma {:induction false} TrimEndTrimsSpaces(s: string, j: nat)
    requires j <= |s|
    ensures forall k :: TrimEnd(s, j) <= k < j ==> IsSpace(s[k])
    decreases j
  {
    if j > 0 && IsSpace(s[j - 1]) {
      TrimEndTrimsSpaces(s, j - 1);
    }
  }

  /** `lstrip` removes whitespace and nothing else. */
  lemma LStripDropsSpaces(s: string)
    ensures forall k :: 0 <= k < |s| - |LStrip(s)| ==> IsSpace(s[k])
  {
    SkipSpacesSkipsSpaces(s, 0);
  }

  /** `rstrip` removes whitespace and nothing else. */
  lemma RStripDropsSpaces(s: string)
    ensures forall k :: |RStrip(s)| <= k < |s| ==> IsSpace(s[k])
  {
    TrimEndTrimsSpaces(s, |s|);
  }

  /** `s.strip()`. */
  function Strip(s: string): (r: string)
    ensures |r| <= |s|
    ensures r == [] || (!IsSpace(r[0]) && !IsSpace(r[|r| - 1]))
    ensures s == [] || (!IsSpace(s[0]) && !IsSpace(s[|s| - 1])) ==> r == s
  {
    RStrip(LStrip(s))
  }

  lemma {:induction false} SkipSpacesConcat(a: string, b: string, i: nat)
    requires i <= |a| && |b| > 0 && !IsSpace(b[0])
    ensures SkipSpaces(a + b, i) == SkipSpaces(a, i)
    decreases |a| - i
  {
    if i < |a| {
      assert (a + b)[i] == a[i];
      if IsSpace(a[i]) {
        SkipSpacesConcat(a, b, i + 1);
      }
    } else {
      assert (a + b)[i] == b[0];
    }
  }

  /** Leading whitespace of `a + b` is that of `a` when `b` starts with other text. */
  lemma LStripConcat(a: string, b: string)
    requires |b| > 0 && !IsSpace(b[0])
    ensures LStrip(a + b) == LStrip(a) + b
  {
    var i := SkipSpaces(a, 0);
    SkipSpacesConcat(a, b, 0);
    assert (a + b)[i..] == a[i..] + b;
  }

  lemma {:induction false} TrimEndConcat(a: string, b: string, j: nat)
    requires j <= |b| && TrimEnd(b, j) > 0
    ensures TrimEnd(a + b, |a| + j) == |a| + TrimEnd(b, j)
    decreases j
  {
    assert (a + b)[|a| + j - 1] == b[j - 1];
    if IsSpace(b[j - 1]) {
      TrimEndConcat(a, b, j - 1);
    }
  }

  /** Trailing whitespace of `a + b` is that of `b` when `b` holds other text. */
  lemma RStripConcat(a: string, b: string)
    requires RStrip(b) != []
    ensures RStrip(a + b) == a + RStrip(b)
  {
    TrimEndConcat(a, b, |b|);
    var i := TrimEnd(b, |b|);
    assert (a + b)[..|a| + i] == a + b[..i];
  }

  /** `sub` occurs in `s` at index `k`. */
  predicate OccursAt(s: string, sub: string, k: nat) {
    k + |sub| <= |s| && s[k..k + |sub|] == sub
  }

  /** Python's `sub in s`. */
  predicate Contains(s: string, sub: string) {
    exists k: nat | k <= |s| :: OccursAt(s, sub, k)
  }

  function LowerChar(c: char): char {
    if 'A' <= c <= 'Z' then (c as int + 32) as char else c
  }

  function UpperChar(c: char): char {
    if 'a' <= c <= 'z' then (c as int - 32) as char else c
  }

  /** `s.lower()`, restricted to the ASCII letters. */
  function Lower(s: string): (r: string)
    ensures |r| == |s|
    ensures forall k :: 0 <= k < |s| ==> r[k] == LowerChar(s[k])
  {
    seq(|s|, k requires 0 <= k < |s| => LowerChar(s[k]))
  }

  function DigitChar(d: nat): char
    requires d < 10
  {
    "0123456789"[d]
  }

  predicate IsDigit(c: char) {
    '0' <= c <= '9'
  }

  predicate AllDigits(s: string) {
    forall k :: 0 <= k < |s| ==> IsDigit(s[k])
  }

  function DigitValue(c: char): nat
    requires IsDigit(c)
  {
    c as int - '0' as int
  }

  /** Python's `str(n)` for a natural number. */
  function Digits(n: nat): (r: string)
    ensures |r| >= 1
    ensures AllDigits(r)
    ensures |r| == 1 <==> n < 10
    ensures r[0] == '0' ==> n == 0
  {
    if n < 10 then [DigitChar(n)] else Digits(n / 10) + [DigitChar(n % 10)]
  }

  /** `strftime`-style zero padding of `n` to at least `width` digits. */
  function Padded(n: nat, width: nat): (r: string)
    ensures |r| >= width
    ensures AllDigits(r)
  {
    ZeroPadded(Digits(n), width)
  }

  /** Zeros in front of `s` until it is `width` long. */
  function ZeroPadded(s: string, width: nat): (r: string)
    requires AllDigits(s)
    ensures |r| >= width && |r| >= |s|
    ensures AllDigits(r)
    decreases width - |s|
  {
    if |s| >= width then s else ZeroPadded("0" + s, width)
  }

  /** The value of a non-empty run of decimal digits. */
  function DigitsValue(s: string): nat
    requires AllDigits(s)
  {
    if |s| == 0 then 0 else 10 * DigitsValue(s[..|s| - 1]) + DigitValue(s[|s| - 1])
  }

  /**
   * Python's `int(s)` on a string: an optional sign followed by one or more ASCII
   * digits; anything else is a ValueError (None).
   */
  function ParseInt(s: string): (r: Option<int>)
    ensures r.Some? ==> |s| >= 1
    ensures r.Some? ==> s[0] == '-' || s[0] == '+' || IsDigit(s[0])
    ensures r.Some? && r.value < 0 ==> s[0] == '-'
    ensures |s| >= 1 && AllDigits(s) ==> r == Some(DigitsValue(s) as int)
  {
    var sign := if |s| > 0 && (s[0] == '-' || s[0] == '+') then 1 else 0;
    var body := s[sign..];
    if |body| == 0 || !AllDigits(body) then None
    else if sign == 1 && s[0] == '-' then Some(0 - DigitsValue(body) as int)
    else Some(DigitsValue(body))
  }

  /** Text that starts with neither a sign nor a digit is not a number. */
  lemma NotANumber(s: string)
    requires |s| > 0 && s[0] != '-' && s[0] != '+' && !IsDigit(s[0])
    ensures ParseInt(s) == None
  {
    var sign := if |s| > 0 && (s[0] == '-' || s[0] == '+') then 1 else 0;
    assert sign == 0;
    var body := s[sign..];
    assert body == s;
    assert !IsDigit(body[0]);
    assert !AllDigits(body);
  }

  lemma {:induction false} DigitsValueOfDigits(n: nat)
    ensures DigitsValue(Digits(n)) == n
  {
    if n >= 10 {
      var d := Digits(n);
      assert d[..|d| - 1] == Digits(n / 10);
      DigitsValueOfDigits(n / 10);
    }
  }

  /** Formatting a page number and parsing it back gives the number again. */
  lemma ParseDigits(n: nat)
    ensures ParseInt(Digits(n)) == Some(n)
  {
    var d := Digits(n);
    assert d[0] != '-' && d[0] != '+' by { assert IsDigit(d[0]); }
    assert d[0..] == d;
    DigitsValueOfDigits(n);
  }
}
