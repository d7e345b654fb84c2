/** String primitives with the semantics of the JavaScript built-ins the
    source relies on: `String.prototype.includes`, `replace` with a string
    pattern, `trim`, `split(/\s+/)`, ASCII `toLowerCase`, `toString(radix)`
    and `parseInt(s, 10)`. Characters are Unicode scalar values; the source's
    UTF-16 code units coincide with them on the Basic Multilingual Plane. */
module Text {
  import opened Wrappers

  /** The characters matched by `\s` in a JavaScript regular expression and
      removed by `String.prototype.trim` (WhiteSpace and LineTerminator):
      U+0009 to U+000D, U+0020, U+00A0, U+1680, U+2000 to U+200A, U+2028,
      U+2029, U+202F, U+205F, U+3000 and U+FEFF. */
  predicate IsSpace(c: char) {
    if c <= ' ' then c == ' ' || '\t' <= c <= '\r'
    else
      || c == '\U{00A0}' || c == '\U{1680}'
      || ('\U{2000}' <= c <= '\U{200A}')
      || c == '\U{2028}' || c == '\U{2029}' || c == '\U{202F}' || c == '\U{205F}'
      || c == '\U{3000}' || c == '\U{FEFF}'
  }

  predicate NoSpace(s: string) {
    forall i :: 0 <= i < |s| ==> !IsSpace(s[i])
  }

  predicate AllSpace(s: string) {
    forall i :: 0 <= i < |s| ==> IsSpace(s[i])
  }

  /** No white space is a digit or a sign. */
  lemma SpaceIsNoDigit(c: char)
    ensures IsSpace(c) ==> DigitValue(c) == 36 && c != '-' && c != '+'
  {
  }

  predicate IsAsciiDigit(c: char) {
    '0' <= c <= '9'
  }

  predicate IsAsciiLower(c: char) {
    'a' <= c <= 'z'
  }

  /** JavaScript truthiness of an optional string: present and non-empty. */
  predicate Truthy(s: Option<string>) {
    s.Some? && s.value != ""
  }

  /** `s || fallback` for an optional string. */
  function OrElse(s: Option<string>, fallback: string): (r: string)
    ensures Truthy(s) ==> r == s.value
    ensures !Truthy(s) ==> r == fallback
  {
    if Truthy(s) then s.value else fallback
  }

  // ---------------------------------------------------------------------
  // Trimming and tokens
  // ---------------------------------------------------------------------

  /** Drops leading white space. */
  function TrimStart(s: string): (r: string)
    ensures |r| <= |s| && r == s[|s| - |r|..]
    ensures AllSpace(s[..|s| - |r|])
    ensures r == [] || !IsSpace(r[0])
  {
    if |s| > 0 && IsSpace(s[0]) then
      var r := TrimStart(s[1..]);
      assert s[..|s| - |r|] == [s[0]] + s[1..][..|s| - 1 - |r|];
      r
    else s
  }

  /** Drops trailing white space. */
  function TrimEnd(s: string): (r: string)
    ensures |r| <= |s| && r == s[..|r|]
    ensures AllSpace(s[|r|..])
    ensures r == [] || !IsSpace(r[|r| - 1])
  {
    if |s| > 0 && IsSpace(s[|s| - 1]) then
      var r := TrimEnd(s[..|s| - 1]);
      assert s[|r|..] == s[..|s| - 1][|r|..] + [s[|s| - 1]];
      r
    else s
  }

  /** `String.prototype.trim`. */
  function Trim(s: string): (r: string)
    ensures r == [] || (!IsSpace(r[0]) && !IsSpace(r[|r| - 1]))
    ensures |r| <= |s|
  {
    TrimEnd(TrimStart(s))
  }

  lemma {:induction false} TrimEndEmptyIff(t: string)
    ensures TrimEnd(t) == [] <==> AllSpace(t)
  {
    if |t| > 0 && IsSpace(t[|t| - 1]) {
      var u := t[..|t| - 1];
      TrimEndEmptyIff(u);
      assert t == u + [t[|t| - 1]];
      assert AllSpace(t) <==> AllSpace(u);
    }
  }

  /** A string trims to "" exactly when every character is white space. */
  lemma TrimEmptyIff(s: string)
    ensures Trim(s) == [] <==> AllSpace(s)
  {
    var t := TrimStart(s);
    var k := |s| - |t|;
    TrimEndEmptyIff(t);
    assert s == s[..k] + t;
    assert AllSpace(s) <==> AllSpace(s[..k]) && AllSpace(t);
  }

  /** The first element of `s.split(/\s+/)` for a string `s` without leading
      white space: the longest prefix free of white space. */
  function FirstToken(s: string): (r: string)
    ensures |r| <= |s| && r == s[..|r|] && NoSpace(r)
    ensures |r| == |s| || IsSpace(s[|r|])
  {
    if |s| == 0 || IsSpace(s[0]) then [] else [s[0]] + FirstToken(s[1..])
  }

  // ---------------------------------------------------------------------
  // Substring search
  // ---------------------------------------------------------------------

  predicate OccursAt(s: string, sub: string, i: nat) {
    i + |sub| <= |s| && s[i..i + |sub|] == sub
  }

  /** The least position at or after `i` where `sub` occurs in `s`. */
  function IndexOfFrom(s: string, sub: string, i: nat): (r: Option<nat>)
    ensures r.Some? ==> i <= r.value && OccursAt(s, sub, r.value)
    ensures r.Some? ==> forall j: nat :: i <= j < r.value ==> !OccursAt(s, sub, j)
    ensures r.None? ==> forall j: nat :: i <= j ==> !OccursAt(s, sub, j)
    decreases |s| - i
  {
    if i + |sub| > |s| then None
    else if s[i..i + |sub|] == sub then Some(i)
    else IndexOfFrom(s, sub, i + 1)
  }

  function IndexOf(s: string, sub: string): (r: Option<nat>)
    ensures r.Some? ==> OccursAt(s, sub, r.value)
    ensures r.Some? ==> forall j: nat :: j < r.value ==> !OccursAt(s, sub, j)
    ensures r.None? ==> forall j: nat :: !OccursAt(s, sub, j)
  {
    IndexOfFrom(s, sub, 0)
  }

  /** `s.includes(sub)`. */
  predicate Includes(s: string, sub: string)
    ensures Includes(s, sub) <==> exists j: nat :: OccursAt(s, sub, j)
  {
    IndexOf(s, sub).Some?
  }

  lemma IncludesAt(s: string, sub: string, j: nat)
    requires OccursAt(s, sub, j)
    ensures Includes(s, sub)
  {
  }

  /** Every string includes itself and the empty string. */
  lemma IncludesSelf(s: string)
    ensures Includes(s, s) && Includes(s, "")
  {
    assert OccursAt(s, s, 0);
    assert OccursAt(s, "", 0);
  }

  /** `s.replace(sub, "")`: removes the first occurrence of `sub`, if any. */
  function RemoveFirst(s: string, sub: string): (r: string)
    ensures !Includes(s, sub) ==> r == s
    ensures Includes(s, sub) ==> |r| == |s| - |sub|
  {
    match IndexOf(s, sub)
    case None => s
    case Some(i) => s[..i] + s[i + |sub|..]
  }

  /** Removing a prefix leaves the rest. */
  lemma RemoveFirstPrefix(sub: string, t: string)
    ensures RemoveFirst(sub + t, sub) == t
  {
    var s := sub + t;
    assert OccursAt(s, sub, 0);
    assert s[|sub|..] == t;
  }

  /** Trimming a string that starts with one space and has no white space at
      either end of the rest gives the rest. */
  lemma TrimSpaceThen(t: string)
    requires t != [] && !IsSpace(t[0]) && !IsSpace(t[|t| - 1])
    ensures Trim([' '] + t) == t
  {
    assert IsSpace(' ');
    assert ([' '] + t)[1..] == t;
    assert TrimStart([' '] + t) == t;
  }

  // ---------------------------------------------------------------------
  // Case and character classes
  // ---------------------------------------------------------------------

  /** `toLowerCase` on one character, for the ASCII range only. */
  function LowerChar(c: char): char {
    if 'A' <= c <= 'Z' then (c as int + 32) as char else c
  }

  function ToLowerAscii(s: string): (r: string)
    ensures |r| == |s|
    ensures forall i :: 0 <= i < |s| ==> r[i] == LowerChar(s[i])
  {
    seq(|s|, i requires 0 <= i < |s| => LowerChar(s[i]))
  }

  /** The characters of `s` that satisfy `keep`, in order. */
  function FilterChars(s: string, keep: char -> bool): (r: string)
    ensures |r| <= |s|
    ensures forall i :: 0 <= i < |r| ==> keep(r[i])
    ensures forall c :: c in s && keep(c) ==> c in r
    ensures forall c :: c in r ==> c in s
  {
    if s == [] then []
    else (if keep(s[0]) then [s[0]] else []) + FilterChars(s[1..], keep)
  }

  // ---------------------------------------------------------------------
  // Numerals: `Number.prototype.toString(radix)` and `parseInt(s, 10)`
  // ---------------------------------------------------------------------

  function DigitChar(d: nat): (c: char)
    requires d < 36
  {
    if d < 10 then ('0' as int + d) as char else ('a' as int + d - 10) as char
  }

  /** The value of a digit of radix 36 or less (`0`-`9`, then `a`-`z`). */
  function DigitValue(c: char): nat {
    if '0' <= c <= '9' then c as int - '0' as int
    else if 'a' <= c <= 'z' then c as int - 'a' as int + 10
    else 36
  }

  predicate IsDigitOf(c: char, base: nat) {
    DigitValue(c) < base
  }

  predicate AllDigitsOf(s: string, base: nat) {
    forall i :: 0 <= i < |s| ==> IsDigitOf(s[i], base)
  }

  lemma DigitCharValue(d: nat)
    requires d < 36
    ensures DigitValue(DigitChar(d)) == d
  {
  }

  /** Euclidean division facts for a radix, stated once so that the digit
      proofs below need no non-linear reasoning of their own. */
  lemma DivMod(n: nat, base: nat)
    requires 2 <= base
    ensures n == (n / base) * base + n % base && 0 <= n % base < base
    ensures n < base ==> n / base == 0 && n % base == n
    ensures n >= base ==> 0 < n / base < n
  {
    var q, r := n / base, n % base;
    assert n == q * base + r && 0 <= r < base;
    assert q >= 0 by {
      NonNegativeQuotient(n, base);
    }
    if n < base {
      if q > 0 {
        MulAtLeast(q, base);
      }
    } else {
      if q > 0 {
        MulAtLeast(base, q);
        assert q * base >= 2 * q;
      }
    }
  }

  lemma NonNegativeQuotient(n: nat, base: nat)
    requires 1 <= base
    ensures n / base >= 0
  {
  }

  /** `n.toString(base)` for a non-negative integer: no leading zero, at least
      one digit. */
  function Radix(n: nat, base: nat): (r: string)
    requires 2 <= base <= 36
    ensures 1 <= |r| && AllDigitsOf(r, base)
    ensures |r| > 1 ==> r[0] != '0'
    ensures n == 0 <==> r == "0"
    decreases n
  {
    DivMod(n, base);
    if n < base then [DigitChar(n)] else Radix(n / base, base) + [DigitChar(n % base)]
  }

  /** The value of a digit string, most significant digit first. */
  function RadixValue(s: string, base: nat): nat
    requires AllDigitsOf(s, base)
  {
    if s == [] then 0
    else RadixValue(s[..|s| - 1], base) * base + DigitValue(s[|s| - 1])
  }

  lemma {:induction false} RadixRoundTrip(n: nat, base: nat)
    requires 2 <= base <= 36
    ensures RadixValue(Radix(n, base), base) == n
    decreases n
  {
    DivMod(n, base);
    var d := n % base;
    DigitCharValue(d);
    if n >= base {
      var q := n / base;
      var hi := Radix(q, base);
      var r := hi + [DigitChar(d)];
      assert Radix(n, base) == r;
      assert r[..|r| - 1] == hi;
      RadixRoundTrip(q, base);
      assert RadixValue(r, base) == RadixValue(hi, base) * base + d;
    } else {
      assert Radix(n, base) == [DigitChar(n)];
    }
  }

  /** Printing is the inverse of reading on canonical digit strings. */
  lemma {:induction false} RadixCanonical(s: string, base: nat)
    requires 2 <= base <= 36 && 1 <= |s| && AllDigitsOf(s, base)
    requires |s| > 1 ==> s[0] != '0'
    ensures Radix(RadixValue(s, base), base) == s
    decreases |s|
  {
    var init := s[..|s| - 1];
    var last := s[|s| - 1];
    var d := DigitValue(last);
    assert IsDigitOf(last, base);
    assert DigitChar(d) == last;
    assert s == init + [last];
    if |s| == 1 {
      assert init == [];
      assert RadixValue(s, base) == d;
      DivMod(d, base);
    } else {
      assert init[0] == s[0];
      assert AllDigitsOf(init, base);
      RadixCanonical(init, base);
      var v := RadixValue(init, base);
      assert init[0] != '0';
      assert v != 0;
      var n := v * base + d;
      assert RadixValue(s, base) == n;
      DivModUnique(n, base, v, d);
      DivMod(n, base);
    }
  }

  /** A value written as `q * base + d` with a digit `d` has quotient `q` and
      remainder `d`. */
  lemma DivModUnique(n: nat, base: nat, q: nat, d: nat)
    requires 2 <= base && d < base && n == q * base + d
    ensures n / base == q && n % base == d
  {
    DivMod(n, base);
    var q2, r2 := n / base, n % base;
    assert (q - q2) * base == r2 - d;
    if q > q2 {
      MulAtLeast(q - q2, base);
    } else if q < q2 {
      MulAtLeast(q2 - q, base);
    }
  }

  lemma MulAtLeast(x: int, y: nat)
    requires x >= 1
    ensures x * y >= y
  {
  }

  /** Strings of at most `k` digits have values below `base^k`; conversely a
      value below `base^k` prints in at most `k` digits. */
  function Pow(base: nat, k: nat): nat {
    if k == 0 then 1 else base * Pow(base, k - 1)
  }

  lemma {:induction false} RadixLength(n: nat, base: nat, k: nat)
    requires 2 <= base <= 36 && 1 <= k && n < Pow(base, k)
    ensures |Radix(n, base)| <= k
    decreases k
  {
    if n >= base {
      assert Pow(base, 1) == base;
      assert k > 1;
      assert n / base < Pow(base, k - 1) by {
        assert Pow(base, k) == base * Pow(base, k - 1);
      }
      RadixLength(n / base, base, k - 1);
    }
  }

  /** `n.toString()` for an integer. */
  function IntToString(i: int): (r: string)
    ensures 1 <= |r|
    ensures i >= 0 ==> AllDigitsOf(r, 10)
    ensures i < 0 ==> r[0] == '-' && AllDigitsOf(r[1..], 10)
  {
    if i < 0 then "-" + Radix(-i, 10) else Radix(i, 10)
  }

  /** The longest prefix made of decimal digits. */
  function DigitPrefix(s: string): (r: string)
    ensures |r| <= |s| && r == s[..|r|] && AllDigitsOf(r, 10)
    ensures |r| == |s| || !IsDigitOf(s[|r|], 10)
  {
    if |s| == 0 || !IsDigitOf(s[0], 10) then [] else [s[0]] + DigitPrefix(s[1..])
  }

  /** `parseInt(s, 10)`: leading white space, an optional sign, then the
      longest run of decimal digits; `None` stands for `NaN`. */
  function ParseInt(s: string): (r: Option<int>)
    ensures r.Some? ==> exists k: nat :: k < |s| && IsDigitOf(s[k], 10)
  {
    var t := TrimStart(s);
    var neg := |t| > 0 && t[0] == '-';
    var body := if |t| > 0 && (t[0] == '-' || t[0] == '+') then t[1..] else t;
    var ds := DigitPrefix(body);
    if ds == [] then None
    else
      assert body[0] == ds[0];
      assert s[|s| - |body|] == body[0];
      var magnitude: int := RadixValue(ds, 10);
      Some(if neg then -magnitude else magnitude)
  }

  lemma DigitPrefixOfDigits(s: string)
    requires AllDigitsOf(s, 10)
    ensures DigitPrefix(s) == s
  {
    if |s| > 0 {
      DigitPrefixOfDigits(s[1..]);
    }
  }

  /** `parseInt` reads back what `toString` prints. */
  lemma ParseIntToString(i: int)
    ensures ParseInt(IntToString(i)) == Some(i)
  {
    var s := IntToString(i);
    var m: nat := if i < 0 then -i else i;
    var digits := Radix(m, 10);
    RadixRoundTrip(m, 10);
    DigitPrefixOfDigits(digits);
    SpaceIsNoDigit(s[0]);
    assert TrimStart(s) == s;
    if i < 0 {
      assert s[1..] == digits;
    } else {
      assert s == digits;
      assert s[0] != '-' && s[0] != '+';
    }
  }

  /** `String(true)` is not a number. */
  lemma ParseIntTrue()
    ensures ParseInt("true") == None
  {
    assert !IsSpace('t') && !IsDigitOf('t', 10);
    assert TrimStart("true") == "true";
  }

  lemma ParseIntZero()
    ensures ParseInt("0") == Some(0)
  {
    ParseIntToString(0);
    assert IntToString(0) == "0";
  }
}
