/** The Python string builtins the COCO conversion script applies to each
    manifest line: `str.strip()`, `str.split(",")` and `int(...)`, each with
    the partner that pins it down (a characterisation of what strip removes,
    `join` for split, and for int a two-way characterisation of the text it
    accepts: whitespace, an optional sign, leading zeros, the printed
    absolute value, whitespace). */
module Text {
  import opened Wrappers

  /** The characters for which Python's `str.isspace()` holds. */
  predicate IsSpace(c: char) {
    var k := c as int;
    || 9 <= k <= 13 || 28 <= k <= 32 || k == 0x85 || k == 0xA0 || k == 0x1680
    || 0x2000 <= k <= 0x200A || k == 0x2028 || k == 0x2029 || k == 0x202F
    || k == 0x205F || k == 0x3000
  }

  ghost predicate AllSpace(s: string) {
    forall i :: 0 <= i < |s| ==> IsSpace(s[i])
  }

  /** No whitespace at either end: what `strip()` leaves behind. */
  ghost predicate Trimmed(s: string) {
    s == [] || (!IsSpace(s[0]) && !IsSpace(s[|s| - 1]))
  }

  /** `str.lstrip()`: drops the longest all-whitespace prefix. */
  function TrimStart(s: string): string {
    if s != [] && IsSpace(s[0]) then TrimStart(s[1..]) else s
  }

  /** `str.rstrip()`: drops the longest all-whitespace suffix. */
  function TrimEnd(s: string): string {
    if s != [] && IsSpace(s[|s| - 1]) then TrimEnd(s[..|s| - 1]) else s
  }

  /** `str.strip()`. What it keeps is no longer than the input and has no
      whitespace at its ends, and it keeps nothing exactly when the input
      is all whitespace. */
  function Strip(s: string): (r: string)
    ensures |r| <= |s| && Trimmed(r)
    ensures r == [] <==> AllSpace(s)
  {
    var t := TrimStart(s);
    TrimStartShape(s);
    TrimEndShape(t);
    var r := TrimEnd(t);
    assert r != [] ==> r[0] == t[0];
    assert r == [] ==> s == s[..|s| - |t|] + t[|r|..];
    r
  }

  /** `lstrip()` keeps a suffix, cuts only whitespace and leaves none at
      the front. */
  lemma {:induction false} TrimStartShape(s: string)
    ensures var r := TrimStart(s);
            && |r| <= |s| && r == s[|s| - |r|..]
            && AllSpace(s[..|s| - |r|])
            && (r == [] || !IsSpace(r[0]))
  {
    if s != [] && IsSpace(s[0]) {
      TrimStartShape(s[1..]);
      var r := TrimStart(s);
      assert s[..|s| - |r|] == [s[0]] + s[1..][..|s| - 1 - |r|];
    }
  }

  /** `rstrip()` keeps a prefix, cuts only whitespace and leaves none at
      the back. */
  lemma {:induction false} TrimEndShape(s: string)
    ensures var r := TrimEnd(s);
            && |r| <= |s| && r == s[..|r|]
            && AllSpace(s[|r|..])
            && (r == [] || !IsSpace(r[|r| - 1]))
  {
    if s != [] && IsSpace(s[|s| - 1]) {
      var p := s[..|s| - 1];
      TrimEndShape(p);
      var r := TrimEnd(s);
      assert s[|r|..] == p[|r|..] + [s[|s| - 1]];
    }
  }

  /** `strip()` keeps a middle slice `s[i..i + |r|]`, cuts only whitespace
      on either side of it and leaves none at its ends. */
  lemma StripShape(s: string)
    ensures var r := Strip(s);
            var i := |s| - |TrimStart(s)|;
            && 0 <= i <= i + |r| <= |s|
            && r == s[i..i + |r|]
            && AllSpace(s[..i]) && AllSpace(s[i + |r|..])
            && Trimmed(r)
  {
    var t := TrimStart(s);
    var r := Strip(s);
    TrimStartShape(s);
    TrimEndShape(t);
    var i := |s| - |t|;
    assert s[i + |r|..] == t[|r|..];
    if r != [] {
      assert r[0] == t[0];
    }
  }

  lemma {:induction false} TrimStartPadded(pre: string, t: string)
    requires AllSpace(pre) && (t == [] || !IsSpace(t[0]))
    ensures TrimStart(pre + t) == t
  {
    if pre != [] {
      assert (pre + t)[1..] == pre[1..] + t;
      TrimStartPadded(pre[1..], t);
    }
  }

  lemma {:induction false} TrimEndPadded(t: string, post: string)
    requires AllSpace(post) && (t == [] || !IsSpace(t[|t| - 1]))
    ensures TrimEnd(t + post) == t
  {
    if post != [] {
      assert (t + post)[..|t + post| - 1] == t + post[..|post| - 1];
      TrimEndPadded(t, post[..|post| - 1]);
    }
  }

  /** Whitespace padding on either side of a trimmed string is exactly
      what `strip()` removes. */
  lemma StripPadded(pre: string, t: string, post: string)
    requires AllSpace(pre) && AllSpace(post) && Trimmed(t)
    ensures Strip(pre + t + post) == t
  {
    assert pre + t + post == pre + (t + post);
    if t == [] {
      assert t + post == post;
      TrimStartPadded(pre + post, []);
      assert pre + post == pre + post + [];
      assert AllSpace(pre + post) by {
        forall i | 0 <= i < |pre + post| ensures IsSpace((pre + post)[i]) {
          if i >= |pre| { assert (pre + post)[i] == post[i - |pre|]; }
        }
      }
    } else {
      TrimStartPadded(pre, t + post);
      TrimEndPadded(t, post);
    }
  }

  /** `strip()` is idempotent. */
  lemma StripIdempotent(s: string)
    ensures Strip(Strip(s)) == Strip(s)
  {
    var t := Strip(s);
    StripShape(s);
    assert [] + t + [] == t;
    StripPadded([], t, []);
  }

  /** Number of occurrences of `c` in `s`. */
  function Occurrences(s: string, c: char): nat {
    if s == [] then 0 else (if s[0] == c then 1 else 0) + Occurrences(s[1..], c)
  }

  /** `sep.join(fields)`. */
  function Join(fields: seq<string>, sep: char): string {
    if |fields| == 0 then []
    else if |fields| == 1 then fields[0]
    else fields[0] + [sep] + Join(fields[1..], sep)
  }

  /** `s.split(sep)` for a one-character separator: the pieces between
      consecutive separators, so one more piece than there are separators,
      and the empty string gives one empty piece. */
  function Split(s: string, sep: char): (fields: seq<string>)
    ensures |fields| == Occurrences(s, sep) + 1
    ensures forall k :: 0 <= k < |fields| ==> sep !in fields[k]
  {
    if s == [] then [[]]
    else
      var rest := Split(s[1..], sep);
      if s[0] == sep then [[]] + rest
      else [[s[0]] + rest[0]] + rest[1..]
  }

  /** Joining the pieces of a split with the same separator gives the
      string back. */
  lemma {:induction false} JoinSplit(s: string, sep: char)
    ensures Join(Split(s, sep), sep) == s
  {
    if s != [] {
      var rest := Split(s[1..], sep);
      JoinSplit(s[1..], sep);
      if s[0] == sep {
        assert Split(s, sep) == [[]] + rest;
        assert Join(Split(s, sep), sep) == [] + [sep] + Join(rest, sep);
        assert s == [s[0]] + s[1..];
      } else if |rest| == 1 {
        assert Split(s, sep) == [[s[0]] + rest[0]];
        assert s == [s[0]] + s[1..];
      } else {
        var fs := Split(s, sep);
        assert fs == [[s[0]] + rest[0]] + rest[1..];
        assert fs[1..] == rest[1..];
        assert Join(rest, sep) == rest[0] + [sep] + Join(rest[1..], sep);
        assert s == [s[0]] + s[1..];
      }
    }
  }

  lemma {:induction false} SplitNoSeparator(a: string, sep: char)
    requires sep !in a
    ensures Split(a, sep) == [a]
  {
    if a != [] {
      SplitNoSeparator(a[1..], sep);
      assert [a[0]] + a[1..] == a;
    }
  }

  lemma {:induction false} SplitAtFirstSeparator(a: string, sep: char, b: string)
    requires sep !in a
    ensures Split(a + [sep] + b, sep) == [a] + Split(b, sep)
  {
    if a == [] {
      assert a + [sep] + b == [sep] + b;
      assert ([sep] + b)[1..] == b;
    } else {
      assert (a + [sep] + b)[1..] == a[1..] + [sep] + b;
      SplitAtFirstSeparator(a[1..], sep, b);
      assert [a[0]] + a[1..] == a;
    }
  }

  /** Splitting a join of separator-free pieces gives the pieces back. */
  lemma {:induction false} SplitJoin(fields: seq<string>, sep: char)
    requires |fields| >= 1
    requires forall k :: 0 <= k < |fields| ==> sep !in fields[k]
    ensures Split(Join(fields, sep), sep) == fields
  {
    if |fields| == 1 {
      SplitNoSeparator(fields[0], sep);
    } else {
      SplitJoin(fields[1..], sep);
      SplitAtFirstSeparator(fields[0], sep, Join(fields[1..], sep));
      assert [fields[0]] + fields[1..] == fields;
    }
  }

  predicate IsDigit(c: char) {
    '0' <= c <= '9'
  }

  predicate AllDigits(s: string) {
    forall i :: 0 <= i < |s| ==> IsDigit(s[i])
  }

  /** The value of a string of decimal digits, most significant first. */
  function DigitsValue(s: string): nat
    requires AllDigits(s)
  {
    if s == [] then 0 else 10 * DigitsValue(s[..|s| - 1]) + (s[|s| - 1] as int - '0' as int)
  }

  /** The four ASCII information separators U+001C-U+001F. `str.isspace()`
      holds of them, so `strip()` removes them, but `int()` only skips the
      ASCII whitespace `\t\n\v\f\r` and space and the non-ASCII whitespace,
      so it refuses a text holding any of them. */
  predicate IsInfoSeparator(c: char) {
    '\U{1C}' <= c <= '\U{1F}'
  }

  predicate NoInfoSeparator(s: string) {
    forall i :: 0 <= i < |s| ==> !IsInfoSeparator(s[i])
  }

  /** `int(s)` on a string: surrounding whitespace is ignored, then an
      optional sign and at least one decimal digit; anything else is the
      ValueError, here `None`. The whitespace `int()` skips is that of
      `str.isspace()` without the information separators, and a separator
      anywhere else is not a digit, so any separator in the text is refused.
      Blank text is refused, and a negative value needs a minus sign. */
  function ParseInt(s: string): (r: Option<int>)
    ensures AllSpace(s) ==> r.None?
    ensures r.Some? && r.value < 0 ==> Strip(s)[0] == '-'
  {
    if NoInfoSeparator(s) then ParseSigned(Strip(s)) else None
  }

  /** A text holding an information separator anywhere is refused:
      `int("\x1c7")` raises ValueError although `"\x1c7".strip() == "7"`. */
  lemma InfoSeparatorRefused(s: string, i: nat)
    requires i < |s| && IsInfoSeparator(s[i])
    ensures ParseInt(s) == None
  {
  }

  /** Signs and digits are no information separators. */
  lemma SignedDigitsNoSeparator(sign: string, d: string)
    requires sign == "" || sign == "+" || sign == "-"
    requires AllDigits(d)
    ensures NoInfoSeparator(sign + d)
  {
    forall i | 0 <= i < |sign + d|
      ensures !IsInfoSeparator((sign + d)[i])
    {
      if i >= |sign| {
        assert (sign + d)[i] == d[i - |sign|];
        assert IsDigit(d[i - |sign|]);
      }
    }
  }

  lemma NoInfoSeparatorJoin(pre: string, t: string, post: string)
    requires NoInfoSeparator(pre) && NoInfoSeparator(t) && NoInfoSeparator(post)
    ensures NoInfoSeparator(pre + t + post)
  {
    var s := pre + t + post;
    forall i | 0 <= i < |s|
      ensures !IsInfoSeparator(s[i])
    {
      if i < |pre| {
        assert s[i] == pre[i];
      } else if i < |pre| + |t| {
        assert s[i] == t[i - |pre|];
      } else {
        assert s[i] == post[i - |pre| - |t|];
      }
    }
  }

  /** An optional sign followed by at least one decimal digit. */
  function ParseSigned(t: string): Option<int> {
    if |t| >= 2 && (t[0] == '+' || t[0] == '-') && AllDigits(t[1..]) then
      var v: int := DigitsValue(t[1..]);
      Some(if t[0] == '-' then -v else v)
    else if |t| >= 1 && AllDigits(t) then
      Some(DigitsValue(t))
    else
      None
  }

  /** The decimal representation `str(n)` of a natural number. */
  function ShowNat(n: nat): (s: string)
    ensures |s| >= 1 && AllDigits(s)
  {
    if n < 10 then [('0' as int + n) as char]
    else ShowNat(n / 10) + [('0' as int + n % 10) as char]
  }

  /** `str(i)` for an int. */
  function ShowInt(i: int): (s: string)
    ensures |s| >= 1
  {
    if i < 0 then "-" + ShowNat(-i) else ShowNat(i)
  }

  lemma {:induction false} DigitsOfShowNat(n: nat)
    ensures DigitsValue(ShowNat(n)) == n
  {
    if n >= 10 {
      DigitsOfShowNat(n / 10);
      var s := ShowNat(n);
      assert s[..|s| - 1] == ShowNat(n / 10);
    }
  }

  lemma ParseSignedShowInt(i: int)
    ensures ParseSigned(ShowInt(i)) == Some(i)
  {
    var t := ShowInt(i);
    if i < 0 {
      assert t[1..] == ShowNat(-i);
      DigitsOfShowNat(-i);
    } else {
      DigitsOfShowNat(i);
    }
  }

  /** `int(str(i)) == i`, with any whitespace that `int()` skips around the
      digits. */
  lemma ParseShowInt(pre: string, i: int, post: string)
    requires AllSpace(pre) && AllSpace(post)
    requires NoInfoSeparator(pre) && NoInfoSeparator(post)
    ensures ParseInt(pre + ShowInt(i) + post) == Some(i)
  {
    var t := ShowInt(i);
    assert IsDigit(t[|t| - 1]);
    assert Trimmed(t);
    if i < 0 {
      SignedDigitsNoSeparator("-", ShowNat(-i));
    } else {
      SignedDigitsNoSeparator("", ShowNat(i));
      assert "" + ShowNat(i) == t;
    }
    ParseIntPadded(pre, t, post);
    ParseSignedShowInt(i);
  }

  /** `k` zero digits. */
  function Zeros(k: nat): (z: string)
    ensures |z| == k && forall i :: 0 <= i < k ==> z[i] == '0'
  {
    if k == 0 then [] else Zeros(k - 1) + "0"
  }

  function Abs(i: int): nat {
    if i < 0 then -i else i
  }

  /** Leading zeros do not change the value of a digit string. */
  lemma {:induction false} DigitsValueLeadingZeros(k: nat, d: string)
    requires AllDigits(d)
    ensures AllDigits(Zeros(k) + d) && DigitsValue(Zeros(k) + d) == DigitsValue(d)
  {
    var z := Zeros(k) + d;
    if d == [] {
      assert z == Zeros(k);
      if k > 0 {
        assert z[..|z| - 1] == Zeros(k - 1) + [];
        DigitsValueLeadingZeros(k - 1, []);
      }
    } else {
      var p := d[..|d| - 1];
      assert z[..|z| - 1] == Zeros(k) + p;
      DigitsValueLeadingZeros(k, p);
    }
  }

  /** Every digit string is some leading zeros followed by `str` of its
      value. */
  lemma {:induction false} DigitsCanonical(d: string) returns (k: nat)
    requires |d| >= 1 && AllDigits(d)
    ensures d == Zeros(k) + ShowNat(DigitsValue(d))
  {
    var c := d[|d| - 1] as int - '0' as int;
    if |d| == 1 {
      k := 0;
      assert ShowNat(c) == d;
    } else {
      var p := d[..|d| - 1];
      var k' := DigitsCanonical(p);
      var m := DigitsValue(p);
      assert d == p + [d[|d| - 1]];
      if m == 0 {
        k := k' + 1;
        assert p == Zeros(k);
        assert ShowNat(DigitsValue(d)) == [d[|d| - 1]];
      } else {
        k := k';
        var n := DigitsValue(d);
        assert n / 10 == m && n % 10 == c;
        assert ShowNat(n) == ShowNat(m) + [d[|d| - 1]];
      }
    }
  }

  /** The value `ParseSigned` gives a sign followed by digits. */
  function SignedValue(sign: string, d: string): int
    requires AllDigits(d)
  {
    if sign == "-" then -(DigitsValue(d) as int) else DigitsValue(d)
  }

  /** A sign followed by at least one digit has no whitespace at its ends
      and reads as its signed value. */
  lemma ParseSignedDigits(sign: string, d: string)
    requires sign == "" || sign == "+" || sign == "-"
    requires |d| >= 1 && AllDigits(d)
    ensures Trimmed(sign + d)
    ensures ParseSigned(sign + d) == Some(SignedValue(sign, d))
  {
    var t := sign + d;
    assert IsDigit(d[0]) && IsDigit(d[|d| - 1]);
    assert t[|t| - 1] == d[|d| - 1];
    if sign == "" {
      assert t == d;
    } else {
      assert t[0] == sign[0] && t[1..] == d;
    }
  }

  /** The text `sign + "0" * k + str(n)`. */
  function IntText(sign: string, k: nat, n: nat): string {
    sign + (Zeros(k) + ShowNat(n))
  }

  /** A sign, leading zeros and the digits of `n` read as the signed `n`. */
  lemma ParseSignedCanonical(sign: string, k: nat, n: nat)
    requires sign == "" || sign == "+" || sign == "-"
    ensures Trimmed(IntText(sign, k, n))
    ensures ParseSigned(IntText(sign, k, n)) == Some(if sign == "-" then -(n as int) else n as int)
  {
    var d := Zeros(k) + ShowNat(n);
    CanonicalDigits(k, n);
    ParseSignedDigits(sign, d);
    assert IntText(sign, k, n) == sign + d;
  }

  /** Leading zeros and `str(n)` form a digit string of value `n`. */
  lemma CanonicalDigits(k: nat, n: nat)
    ensures var d := Zeros(k) + ShowNat(n);
            |d| >= 1 && AllDigits(d) && DigitsValue(d) == n
  {
    DigitsValueLeadingZeros(k, ShowNat(n));
    DigitsOfShowNat(n);
  }

  /** `int()` of a trimmed text with whitespace around it is `ParseSigned`
      of the text. */
  lemma ParseIntPadded(pre: string, t: string, post: string)
    requires AllSpace(pre) && AllSpace(post) && Trimmed(t)
    requires NoInfoSeparator(pre) && NoInfoSeparator(t) && NoInfoSeparator(post)
    ensures ParseInt(pre + t + post) == ParseSigned(t)
  {
    StripPadded(pre, t, post);
    NoInfoSeparatorJoin(pre, t, post);
  }

  /** `int()` accepts whitespace it skips, an optional sign, any number of
      leading zeros and the digits of a natural number, such whitespace
      again, and reads the signed value: `int(" +007 ") == 7`,
      `int("-0") == 0`. */
  lemma ParseIntAccepts(pre: string, sign: string, k: nat, n: nat, post: string)
    requires AllSpace(pre) && AllSpace(post)
    requires NoInfoSeparator(pre) && NoInfoSeparator(post)
    requires sign == "" || sign == "+" || sign == "-"
    ensures ParseInt(pre + IntText(sign, k, n) + post) == Some(if sign == "-" then -(n as int) else n as int)
  {
    ParseSignedCanonical(sign, k, n);
    CanonicalDigits(k, n);
    SignedDigitsNoSeparator(sign, Zeros(k) + ShowNat(n));
    assert IntText(sign, k, n) == sign + (Zeros(k) + ShowNat(n));
    ParseIntPadded(pre, IntText(sign, k, n), post);
  }

  /** A string `ParseSigned` accepts is a sign ("-" only for a value that is
      not positive), leading zeros and `str(abs(v))`. */
  lemma ParseSignedShape(t: string, v: int) returns (sign: string, k: nat)
    requires ParseSigned(t) == Some(v)
    ensures sign == "" || sign == "+" || sign == "-"
    ensures sign == "-" ==> v <= 0
    ensures sign != "-" ==> v >= 0
    ensures t == IntText(sign, k, Abs(v))
  {
    var d: string;
    if |t| >= 2 && (t[0] == '+' || t[0] == '-') && AllDigits(t[1..]) {
      sign, d := t[..1], t[1..];
      assert t == sign + d;
    } else {
      sign, d := "", t;
      assert t == sign + d;
    }
    ParseSignedDigits(sign, d);
    assert v == SignedValue(sign, d);
    assert Abs(v) == DigitsValue(d);
    k := DigitsCanonical(d);
  }

  /** Conversely, every string `int()` accepts has that shape: whitespace,
      an optional sign ("-" only for a value that is not positive), leading
      zeros, `str(abs(v))`, whitespace, where the whitespace holds no
      information separator. Anything else, such as "7x", "", "+" or
      "\x1c7", is rejected. */
  lemma ParseIntShape(s: string, v: int) returns (pre: string, sign: string, k: nat, post: string)
    requires ParseInt(s) == Some(v)
    ensures AllSpace(pre) && AllSpace(post)
    ensures NoInfoSeparator(pre) && NoInfoSeparator(post)
    ensures sign == "" || sign == "+" || sign == "-"
    ensures sign == "-" ==> v <= 0
    ensures sign != "-" ==> v >= 0
    ensures s == pre + IntText(sign, k, Abs(v)) + post
  {
    var t := Strip(s);
    StripShape(s);
    var i := |s| - |TrimStart(s)|;
    pre, post := s[..i], s[i + |t|..];
    SplitInThree(s, i, i + |t|);
    assert forall j :: 0 <= j < |post| ==> post[j] == s[i + |t| + j];
    sign, k := ParseSignedShape(t, v);
  }

  lemma SplitInThree(s: string, i: nat, j: nat)
    requires i <= j <= |s|
    ensures s == s[..i] + s[i..j] + s[j..]
  {
  }
}
