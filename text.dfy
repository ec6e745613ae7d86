/** Character classes and string helpers shared by the forward converter and the
    reverse parser. Python's `str` methods and regex classes are written out here. */
module Text {

  /** Python's `str.isspace()`; `\s`, `str.strip()` and `str.split()` use the same set. */
  predicate IsSpace(c: char) {
    c == ' ' || c == '\t' || c == '\n' || c == '\r' || c == '\U{000B}' || c == '\U{000C}'
    || ('\U{001C}' <= c <= '\U{001F}') || c == '\U{0085}' || c == '\U{00A0}' || c == '\U{1680}'
    || ('\U{2000}' <= c <= '\U{200A}') || c == '\U{2028}' || c == '\U{2029}' || c == '\U{202F}'
    || c == '\U{205F}' || c == '\U{3000}'
  }

  predicate IsDigit(c: char) { '0' <= c <= '9' }

  predicate IsAsciiLetter(c: char) { 'a' <= c <= 'z' || 'A' <= c <= 'Z' }

  /** `\w`, restricted to ASCII: letters, digits and the underscore. */
  predicate IsWordChar(c: char) { IsAsciiLetter(c) || IsDigit(c) || c == '_' }

  /** True when `pat` occurs in `s` starting at index `i`. */
  predicate StartsAt(s: string, i: int, pat: string) {
    0 <= i && i + |pat| <= |s| && s[i..i + |pat|] == pat
  }

  predicate StartsWith(s: string, pat: string) { StartsAt(s, 0, pat) }

  lemma AppendAssoc<T>(a: seq<T>, b: seq<T>, c: seq<T>)
    ensures (a + b) + c == a + (b + c)
  {
  }

  /** Slicing a concatenation inside its first part. */
  lemma SliceAppend<T>(x: seq<T>, y: seq<T>, k: nat)
    requires k <= |x|
    ensures (x + y)[..k] == x[..k]
    ensures (x + y)[k..] == x[k..] + y
  {
  }

  /** A suffix is the stretch up to a later point followed by the suffix from there. */
  lemma SliceSplit<T>(xs: seq<T>, i: nat, j: nat)
    requires i <= j <= |xs|
    ensures xs[i..] == xs[i..j] + xs[j..]
  {
  }

  /** A non-empty stretch is its first element followed by the rest. */
  lemma SliceCons<T>(xs: seq<T>, i: nat, j: nat)
    requires i < j <= |xs|
    ensures xs[i..j] == [xs[i]] + xs[i + 1..j]
  {
  }

  /** A non-empty sequence is its front followed by its last element. */
  lemma SplitLast<T>(xs: seq<T>)
    requires xs != []
    ensures xs == xs[..|xs| - 1] + [xs[|xs| - 1]]
  {
  }

  /** Extending a prefix by one element. */
  lemma TakeSnoc<T>(xs: seq<T>, i: nat)
    requires i < |xs|
    ensures xs[..i + 1][..i] == xs[..i]
    ensures xs[..i + 1] == xs[..i] + [xs[i]]
  {
  }

  /** An occurrence stays where it is when text is added after it. */
  lemma StartsAtAppend(s: string, x: string, i: nat, pat: string)
    requires StartsAt(s, i, pat)
    ensures StartsAt(s + x, i, pat)
  {
    assert (s + x)[i..i + |pat|] == s[i..i + |pat|];
  }

  /** An occurrence moves by the length of text added before it. */
  lemma StartsAtShift(p: string, s: string, i: nat, pat: string)
    requires StartsAt(s, i, pat)
    ensures StartsAt(p + s, |p| + i, pat)
  {
    assert (p + s)[|p| + i..|p| + i + |pat|] == s[i..i + |pat|];
  }

  /** The second part of a concatenation occurs right after the first. */
  lemma StartsAtJoint(a: string, b: string)
    ensures StartsAt(a + b, |a|, b)
  {
    assert (a + b)[|a|..|a| + |b|] == b;
  }

  predicate EndsWith(s: string, pat: string) {
    |pat| <= |s| && s[|s| - |pat|..] == pat
  }

  /** Python's `pat in s`. */
  predicate Contains(s: string, pat: string) {
    ContainsFrom(s, pat, 0)
  }

  /** `pat` occurs in `s` at or after `i`. */
  predicate ContainsFrom(s: string, pat: string, i: nat)
    decreases |s| - i
  {
    i + |pat| <= |s| && (StartsAt(s, i, pat) || ContainsFrom(s, pat, i + 1))
  }

  /** `Contains` means an occurrence exists. */
  lemma {:induction false} ContainsFromIff(s: string, pat: string, i: nat)
    ensures ContainsFrom(s, pat, i) <==> exists k :: i <= k <= |s| - |pat| && StartsAt(s, k, pat)
    decreases |s| - i
  {
    if i + |pat| <= |s| {
      ContainsFromIff(s, pat, i + 1);
    }
  }

  /** Python's `s.find(pat, from)`: the first index at or after `from` where `pat` occurs. */
  function FindFrom(s: string, pat: string, from: nat): (r: int)
    requires |pat| > 0
    ensures r == -1 || (from <= r && StartsAt(s, r, pat))
    decreases |s| - from
  {
    if from + |pat| > |s| then -1
    else if StartsAt(s, from, pat) then from
    else FindFrom(s, pat, from + 1)
  }

  /** `find` returns the first occurrence, and -1 only when there is none. */
  lemma {:induction false} FindFromFirst(s: string, pat: string, from: nat)
    requires |pat| > 0
    ensures FindFrom(s, pat, from) == -1 ==> forall i :: from <= i <= |s| - |pat| ==> !StartsAt(s, i, pat)
    ensures FindFrom(s, pat, from) != -1 ==> forall i :: from <= i < FindFrom(s, pat, from) ==> !StartsAt(s, i, pat)
    decreases |s| - from
  {
    if from + |pat| <= |s| && !StartsAt(s, from, pat) {
      FindFromFirst(s, pat, from + 1);
    }
  }

  /** The first index at or after `i` that does not hold a whitespace character (or `|s|`). */
  function SkipSpace(s: string, i: nat): (r: nat)
    requires i <= |s|
    ensures i <= r <= |s|
    ensures forall k :: i <= k < r ==> IsSpace(s[k])
    ensures r == |s| || !IsSpace(s[r])
    decreases |s| - i
  {
    if i < |s| && IsSpace(s[i]) then SkipSpace(s, i + 1) else i
  }

  /** The first index at or after `i` that does not hold a digit (or `|s|`). */
  function SkipDigits(s: string, i: nat): (r: nat)
    requires i <= |s|
    ensures i <= r <= |s|
    ensures forall k :: i <= k < r ==> IsDigit(s[k])
    ensures r == |s| || !IsDigit(s[r])
    decreases |s| - i
  {
    if i < |s| && IsDigit(s[i]) then SkipDigits(s, i + 1) else i
  }

  /** The index of the next line feed at or after `i` (or `|s|`): where `.` stops. */
  function LineEnd(s: string, i: nat): (r: nat)
    requires i <= |s|
    ensures i <= r <= |s|
    ensures forall k :: i <= k < r ==> s[k] != '\n'
    ensures r == |s| || s[r] == '\n'
    decreases |s| - i
  {
    if i < |s| && s[i] != '\n' then LineEnd(s, i + 1) else i
  }

  /** The first `>` at or after `i` (or `|s|`). */
  function CloseAfter(s: string, i: nat): (r: nat)
    requires i <= |s|
    ensures i <= r <= |s|
    ensures forall k :: i <= k < r ==> s[k] != '>'
    ensures r == |s| || s[r] == '>'
    decreases |s| - i
  {
    if i < |s| && s[i] != '>' then CloseAfter(s, i + 1) else i
  }

  lemma CloseAfterAt(s: string, i: nat, g: nat)
    requires i <= g < |s| && s[g] == '>'
    requires forall k :: i <= k < g ==> s[k] != '>'
    ensures CloseAfter(s, i) == g
  {
  }

  /** Python's `s.lstrip()`. */
  function LStrip(s: string): (r: string)
    ensures |r| <= |s| && r == s[|s| - |r|..]
    ensures r == [] || !IsSpace(r[0])
    ensures forall i :: 0 <= i < |s| - |r| ==> IsSpace(s[i])
  {
    if s != [] && IsSpace(s[0]) then LStrip(s[1..]) else s
  }

  /** Python's `s.rstrip()`. */
  function RStrip(s: string): (r: string)
    ensures |r| <= |s| && r == s[..|r|]
    ensures r == [] || !IsSpace(r[|r| - 1])
    ensures forall i :: |r| <= i < |s| ==> IsSpace(s[i])
  {
    if s != [] && IsSpace(s[|s| - 1]) then RStrip(s[..|s| - 1]) else s
  }

  /** Python's `s.strip()`. */
  function Strip(s: string): (r: string)
    ensures |r| <= |s|
    ensures r == [] || (!IsSpace(r[0]) && !IsSpace(r[|r| - 1]))
    ensures forall c :: c in r ==> c in s
  {
    var l := LStrip(s);
    var r := RStrip(l);
    assert forall c :: c in r ==> c in l;
    r
  }

  /** A string with no whitespace at either end is its own strip. */
  lemma StripNoop(s: string)
    requires s == [] || (!IsSpace(s[0]) && !IsSpace(s[|s| - 1]))
    ensures LStrip(s) == s && RStrip(s) == s && Strip(s) == s
  {
  }

  lemma StripAllSpace(s: string)
    requires forall i :: 0 <= i < |s| ==> IsSpace(s[i])
    ensures LStrip(s) == [] && Strip(s) == []
  {
  }

  lemma {:induction false} LStripSpacePrefix(a: string, t: string)
    requires forall i :: 0 <= i < |a| ==> IsSpace(a[i])
    ensures LStrip(a + t) == LStrip(t)
    decreases |a|
  {
    if a != [] {
      assert (a + t)[1..] == a[1..] + t;
      LStripSpacePrefix(a[1..], t);
    } else {
      assert a + t == t;
    }
  }

  lemma {:induction false} RStripSpaceSuffix(t: string, b: string)
    requires forall i :: 0 <= i < |b| ==> IsSpace(b[i])
    ensures RStrip(t + b) == RStrip(t)
    decreases |b|
  {
    if b != [] {
      assert (t + b)[..|t + b| - 1] == t + b[..|b| - 1];
      RStripSpaceSuffix(t, b[..|b| - 1]);
    } else {
      assert t + b == t;
    }
  }

  /** Stripping after padding with whitespace on either side gives the same result. */
  lemma StripPadded(a: string, s: string, b: string)
    requires forall i :: 0 <= i < |a| ==> IsSpace(a[i])
    requires forall i :: 0 <= i < |b| ==> IsSpace(b[i])
    requires s == [] || (!IsSpace(s[0]) && !IsSpace(s[|s| - 1]))
    ensures Strip(a + s + b) == s
  {
    assert a + s + b == a + (s + b);
    LStripSpacePrefix(a, s + b);
    if s == [] {
      assert s + b == b;
      StripAllSpace(b);
      assert LStrip(a + s + b) == [];
    } else {
      assert (s + b)[0] == s[0];
      assert LStrip(a + s + b) == s + b;
      RStripSpaceSuffix(s, b);
      StripNoop(s);
    }
  }

  /** The decimal digits of `n`, as Python's `str(n)` writes a non-negative int. */
  function Decimal(n: nat): (r: string)
    ensures |r| >= 1
    ensures forall i :: 0 <= i < |r| ==> IsDigit(r[i])
    ensures n > 0 ==> r[0] != '0'
    decreases n
  {
    if n < 10 then [DigitChar(n)] else Decimal(n / 10) + [DigitChar(n % 10)]
  }

  function DigitChar(d: nat): (c: char)
    requires d < 10
    ensures IsDigit(c) && DigitValue(c) == d
  {
    ['0', '1', '2', '3', '4', '5', '6', '7', '8', '9'][d]
  }

  function DigitValue(c: char): nat
    requires IsDigit(c)
  {
    (c as int - '0' as int) as nat
  }

  /** Python's `int(s)` on a run of ASCII digits. */
  function DigitsValue(s: string): nat
    requires forall i :: 0 <= i < |s| ==> IsDigit(s[i])
  {
    if s == [] then 0 else DigitsValue(s[..|s| - 1]) * 10 + DigitValue(s[|s| - 1])
  }

  /** `int(str(n)) == n`. */
  lemma {:induction false} DecimalRoundTrip(n: nat)
    ensures DigitsValue(Decimal(n)) == n
    decreases n
  {
    if n >= 10 {
      DecimalRoundTrip(n / 10);
      var d := Decimal(n);
      assert d[..|d| - 1] == Decimal(n / 10);
    }
  }

  /** Two-digit zero-padded field, as `%m`, `%d`, `%H`, `%M` and `%S` write it. */
  function Pad2(n: nat): (r: string)
    requires n < 100
    ensures |r| == 2 && IsDigit(r[0]) && IsDigit(r[1])
    ensures DigitsValue(r) == n
  {
    var r := [DigitChar(n / 10), DigitChar(n % 10)];
    assert r[..1] == [r[0]] && r[..1][..0] == [];
    assert DigitsValue(r[..1]) == n / 10;
    r
  }

  /** Python's `sep.join(xs)`. */
  function Join(xs: seq<string>, sep: string): string
  {
    if xs == [] then "" else if |xs| == 1 then xs[0] else Join(xs[..|xs| - 1], sep) + sep + xs[|xs| - 1]
  }

  /** Joining puts the first element and the separator in front of the rest. */
  lemma {:induction false} JoinCons(x: string, xs: seq<string>, sep: string)
    requires xs != []
    ensures Join([x] + xs, sep) == x + sep + Join(xs, sep)
    decreases |xs|
  {
    var ys := [x] + xs;
    if |xs| == 1 {
      assert ys[..1] == [x];
    } else {
      var xs0, last := xs[..|xs| - 1], xs[|xs| - 1];
      JoinCons(x, xs0, sep);
      assert ys[..|ys| - 1] == [x] + xs0 && ys[|ys| - 1] == last;
      assert Join(ys, sep) == (x + sep + Join(xs0, sep)) + sep + last;
      assert Join(xs, sep) == Join(xs0, sep) + sep + last;
    }
  }

  /** `"".join(f(x) for x in xs)`. */
  function ConcatMap<T>(f: T -> string, xs: seq<T>): string
  {
    if xs == [] then "" else ConcatMap(f, xs[..|xs| - 1]) + f(xs[|xs| - 1])
  }

  lemma ConcatMapSnoc<T>(f: T -> string, xs: seq<T>, x: T)
    ensures ConcatMap(f, xs + [x]) == ConcatMap(f, xs) + f(x)
  {
    assert (xs + [x])[..|xs|] == xs;
  }

  /** `"".join(f(x, idx) for idx, x in enumerate(xs, 1))`. */
  function NumberedConcat<T>(f: (T, nat) -> string, xs: seq<T>): string
  {
    if xs == [] then "" else NumberedConcat(f, xs[..|xs| - 1]) + f(xs[|xs| - 1], |xs|)
  }

  lemma NumberedConcatSnoc<T>(f: (T, nat) -> string, xs: seq<T>, x: T)
    ensures NumberedConcat(f, xs + [x]) == NumberedConcat(f, xs) + f(x, |xs| + 1)
  {
    assert (xs + [x])[..|xs|] == xs;
  }

  lemma NumberedConcatPrefix<T>(f: (T, nat) -> string, xs: seq<T>, i: nat)
    requires i < |xs|
    ensures NumberedConcat(f, xs[..i + 1]) == NumberedConcat(f, xs[..i]) + f(xs[i], i + 1)
  {
    assert xs[..i + 1][..i] == xs[..i];
  }

  /** The `i`-th element's piece comes right after the pieces of the elements before it. */
  lemma {:induction false} NumberedConcatAt<T>(f: (T, nat) -> string, xs: seq<T>, i: nat)
    requires i < |xs|
    ensures StartsAt(NumberedConcat(f, xs), |NumberedConcat(f, xs[..i])|, f(xs[i], i + 1))
    decreases |xs|
  {
    var n := |xs| - 1;
    NumberedConcatPrefix(f, xs, n);
    assert xs[..n + 1] == xs;
    if i == n {
      StartsAtJoint(NumberedConcat(f, xs[..n]), f(xs[n], n + 1));
    } else {
      NumberedConcatAt(f, xs[..n], i);
      assert xs[..n][..i] == xs[..i] && xs[..n][i] == xs[i];
      StartsAtAppend(NumberedConcat(f, xs[..n]), f(xs[n], n + 1), |NumberedConcat(f, xs[..i])|, f(xs[i], i + 1));
    }
  }

  /** The first part of a concatenation starts it. */
  lemma StartsWithJoint(a: string, b: string)
    ensures StartsWith(a + b, a)
  {
    assert (a + b)[0..|a|] == a;
  }

  /** The second part of a concatenation ends it. */
  lemma EndsWithJoint(a: string, b: string)
    ensures EndsWith(a + b, b)
  {
    assert (a + b)[|a + b| - |b|..] == b;
  }

  lemma ConcatMapPrefix<T>(f: T -> string, xs: seq<T>, i: nat)
    requires i < |xs|
    ensures ConcatMap(f, xs[..i + 1]) == ConcatMap(f, xs[..i]) + f(xs[i])
  {
    assert xs[..i + 1][..i] == xs[..i];
  }

  /** Python's `s.replace(old_char, new)` for a single character. */
  function ReplaceChar(s: string, c: char, rep: string): (r: string)
  {
    if s == [] then "" else ReplaceChar(s[..|s| - 1], c, rep) + (if s[|s| - 1] == c then rep else [s[|s| - 1]])
  }
}
