/** URL slugs for hospital pages (lib/slug-utils.ts): the cleaning pipeline of
    `generateSlug`, the 32-bit string hash appended to Hangul names, and the
    numbered retry of `ensureUniqueSlug`. */
module Slug {
  import opened Text

  // ---------------------------------------------------------------------
  // Character classes
  // ---------------------------------------------------------------------

  /** A precomposed Hangul syllable, `[가-힣]`. */
  predicate IsHangul(c: char) {
    '\U{AC00}' <= c <= '\U{D7A3}'
  }

  /** What a slug is built from apart from hyphens: Hangul, `a-z`, `0-9`. */
  predicate IsWordChar(c: char) {
    IsHangul(c) || IsAsciiLower(c) || IsAsciiDigit(c)
  }

  /** The characters the first `replace` keeps, `[가-힣a-z0-9\s-]`. */
  predicate IsKept(c: char) {
    IsWordChar(c) || IsSpace(c) || c == '-'
  }

  lemma SpaceIsNoWordChar(c: char)
    requires IsSpace(c)
    ensures !IsWordChar(c) && c != '-'
  {
  }

  predicate NoDoubleHyphen(s: string) {
    forall i :: 0 <= i < |s| - 1 ==> !(s[i] == '-' && s[i + 1] == '-')
  }

  /** `[가-힣a-z0-9-]*`. */
  predicate InSlugAlphabet(s: string) {
    forall i :: 0 <= i < |s| ==> IsWordChar(s[i]) || s[i] == '-'
  }

  /** The shape every cleaned slug has: word characters separated by single
      hyphens, with no hyphen at either end. */
  predicate IsCleanSlug(s: string) {
    && InSlugAlphabet(s)
    && NoDoubleHyphen(s)
    && (s == [] || (s[0] != '-' && s[|s| - 1] != '-'))
  }

  /** The word characters of `s`, in order: what cleaning must not lose. */
  function Letters(s: string): (r: string)
    ensures forall i :: 0 <= i < |r| ==> IsWordChar(r[i])
  {
    if s == [] then [] else (if IsWordChar(s[0]) then [s[0]] else []) + Letters(s[1..])
  }

  lemma LettersAppend(a: string, b: string)
    ensures Letters(a + b) == Letters(a) + Letters(b)
  {
    if a != [] {
      assert (a + b)[1..] == a[1..] + b;
      LettersAppend(a[1..], b);
    } else {
      assert a + b == b;
    }
  }

  lemma LettersCons(c: char, s: string)
    ensures Letters([c] + s) == (if IsWordChar(c) then [c] else []) + Letters(s)
  {
    assert ([c] + s)[1..] == s;
  }

  lemma LettersOfSpace(s: string)
    requires AllSpace(s)
    ensures Letters(s) == []
  {
    if s != [] {
      SpaceIsNoWordChar(s[0]);
      LettersOfSpace(s[1..]);
    }
  }

  // ---------------------------------------------------------------------
  // The cleaning pipeline
  // ---------------------------------------------------------------------

  /** `.replace(/[^가-힣a-z0-9\s-]/g, '')`. */
  function KeepChars(s: string): (r: string)
    ensures forall i :: 0 <= i < |r| ==> IsKept(r[i])
    ensures Letters(r) == Letters(s)
  {
    if s == [] then []
    else
      var rest := KeepChars(s[1..]);
      LettersCons(s[0], rest);
      assert Letters(s) == (if IsWordChar(s[0]) then [s[0]] else []) + Letters(s[1..]);
      if IsKept(s[0]) then [s[0]] + rest else rest
  }

  /** `.replace(/\s+/g, '-')`; `afterSpace` says the previous character was
      white space already replaced by a hyphen. */
  function SpacesToHyphens(s: string, afterSpace: bool): (r: string)
    ensures NoSpace(r)
    ensures forall i :: 0 <= i < |r| ==> r[i] == '-' || (r[i] in s && !IsSpace(r[i]))
    ensures Letters(r) == Letters(s)
  {
    if s == [] then []
    else if IsSpace(s[0]) then
      SpaceIsNoWordChar(s[0]);
      var rest := SpacesToHyphens(s[1..], true);
      LettersCons('-', rest);
      if afterSpace then rest else ['-'] + rest
    else
      var rest := SpacesToHyphens(s[1..], false);
      LettersCons(s[0], rest);
      [s[0]] + rest
  }

  /** `.replace(/-+/g, '-')`; `afterHyphen` says a hyphen was just emitted. */
  function SqueezeHyphens(s: string, afterHyphen: bool): (r: string)
    ensures NoDoubleHyphen(r)
    ensures afterHyphen && r != [] ==> r[0] != '-'
    ensures forall i :: 0 <= i < |r| ==> r[i] in s
    ensures Letters(r) == Letters(s)
  {
    if s == [] then []
    else if s[0] == '-' then
      var rest := SqueezeHyphens(s[1..], true);
      LettersCons('-', rest);
      if afterHyphen then rest else ['-'] + rest
    else
      var rest := SqueezeHyphens(s[1..], false);
      LettersCons(s[0], rest);
      [s[0]] + rest
  }

  function DropLeadingHyphens(s: string): (r: string)
    ensures |r| <= |s| && r == s[|s| - |r|..]
    ensures r == [] || r[0] != '-'
    ensures Letters(r) == Letters(s)
  {
    if |s| > 0 && s[0] == '-' then DropLeadingHyphens(s[1..]) else s
  }

  function DropTrailingHyphens(s: string): (r: string)
    ensures |r| <= |s| && r == s[..|r|]
    ensures r == [] || r[|r| - 1] != '-'
    ensures Letters(r) == Letters(s)
  {
    if |s| > 0 && s[|s| - 1] == '-' then
      var t := s[..|s| - 1];
      assert s == t + ['-'];
      LettersAppend(t, ['-']);
      DropTrailingHyphens(t)
    else s
  }

  lemma SliceKeepsShape(s: string, i: nat, j: nat)
    requires i <= j <= |s|
    ensures NoDoubleHyphen(s) ==> NoDoubleHyphen(s[i..j])
    ensures forall k :: 0 <= k < j - i ==> s[i..j][k] in s
  {
    forall k | 0 <= k < j - i ensures s[i..j][k] in s {
      assert s[i..j][k] == s[i + k];
    }
    if NoDoubleHyphen(s) {
      forall k | 0 <= k < j - i - 1 ensures !(s[i..j][k] == '-' && s[i..j][k + 1] == '-') {
        assert s[i..j][k] == s[i + k] && s[i..j][k + 1] == s[i + k + 1];
      }
    }
  }

  /** `.replace(/^-+|-+$/g, '')`. */
  function StripHyphens(s: string): (r: string)
    ensures r == [] || (r[0] != '-' && r[|r| - 1] != '-')
    ensures NoDoubleHyphen(s) ==> NoDoubleHyphen(r)
    ensures forall i :: 0 <= i < |r| ==> r[i] in s
    ensures Letters(r) == Letters(s)
  {
    var t := DropLeadingHyphens(s);
    var r := DropTrailingHyphens(t);
    SliceKeepsShape(s, |s| - |t|, |s| - |t| + |r|);
    assert r == s[|s| - |t|..|s| - |t| + |r|];
    r
  }

  lemma LettersTrim(s: string)
    ensures Letters(Trim(s)) == Letters(s)
  {
    LettersTrimStart(s);
    LettersTrimEnd(TrimStart(s));
  }

  lemma LettersTrimStart(s: string)
    ensures Letters(TrimStart(s)) == Letters(s)
  {
    var t := TrimStart(s);
    var spaces := s[..|s| - |t|];
    assert s == spaces + t;
    LettersAppend(spaces, t);
    LettersOfSpace(spaces);
  }

  lemma LettersTrimEnd(t: string)
    ensures Letters(TrimEnd(t)) == Letters(t)
  {
    var u := TrimEnd(t);
    var spaces := t[|u|..];
    assert t == u + spaces;
    LettersAppend(u, spaces);
    LettersOfSpace(spaces);
  }

  lemma SqueezedAlphabet(kept: string)
    requires forall i :: 0 <= i < |kept| ==> IsKept(kept[i])
    ensures InSlugAlphabet(SqueezeHyphens(SpacesToHyphens(kept, false), false))
  {
    var hyphened := SpacesToHyphens(kept, false);
    var squeezed := SqueezeHyphens(hyphened, false);
    forall i | 0 <= i < |squeezed| ensures IsWordChar(squeezed[i]) || squeezed[i] == '-' {
      var c := squeezed[i];
      assert c in hyphened;
      if c != '-' {
        var k :| 0 <= k < |hyphened| && hyphened[k] == c;
        assert c in kept && !IsSpace(c);
        var j :| 0 <= j < |kept| && kept[j] == c;
        assert IsKept(kept[j]);
      }
    }
  }

  /** The whole chain `toLowerCase().trim().replace(...)` x 4. */
  function Clean(name: string): (r: string)
    ensures IsCleanSlug(r)
    ensures Letters(r) == Letters(ToLowerAscii(name))
  {
    var lowered := ToLowerAscii(name);
    var kept := KeepChars(Trim(lowered));
    var hyphened := SpacesToHyphens(kept, false);
    var squeezed := SqueezeHyphens(hyphened, false);
    LettersTrim(lowered);
    SqueezedAlphabet(kept);
    StripHyphens(squeezed)
  }

  // The identity lemmas below show that a clean slug passes through every
  // stage unchanged.

  lemma TrimCleanSlug(s: string)
    requires IsCleanSlug(s)
    ensures Trim(s) == s
  {
    if s != [] {
      assert !IsSpace(s[0]) by { SpaceCheck(s, 0); }
      assert TrimStart(s) == s;
      assert !IsSpace(s[|s| - 1]) by { SpaceCheck(s, |s| - 1); }
    }
  }

  lemma SpaceCheck(s: string, i: nat)
    requires IsCleanSlug(s) && i < |s|
    ensures !IsSpace(s[i])
  {
    if IsSpace(s[i]) {
      SpaceIsNoWordChar(s[i]);
    }
  }

  lemma KeepCleanSlug(s: string)
    requires InSlugAlphabet(s)
    ensures KeepChars(s) == s
  {
    if s != [] {
      KeepCleanSlug(s[1..]);
      assert s == [s[0]] + s[1..];
    }
  }

  lemma SpacesCleanSlug(s: string, b: bool)
    requires InSlugAlphabet(s)
    ensures SpacesToHyphens(s, b) == s
  {
    if s != [] {
      if IsSpace(s[0]) {
        SpaceIsNoWordChar(s[0]);
      }
      SpacesCleanSlug(s[1..], false);
      assert s == [s[0]] + s[1..];
    }
  }

  lemma SqueezeCleanSlug(s: string, b: bool)
    requires NoDoubleHyphen(s)
    requires b && s != [] ==> s[0] != '-'
    ensures SqueezeHyphens(s, b) == s
  {
    if s != [] {
      SqueezeCleanSlug(s[1..], s[0] == '-');
      assert s == [s[0]] + s[1..];
    }
  }

  lemma LowerCleanSlug(s: string)
    requires InSlugAlphabet(s)
    ensures ToLowerAscii(s) == s
  {
  }

  /** Cleaning is idempotent: a clean slug is its own cleaned form. */
  lemma {:induction false} CleanFixesCleanSlugs(s: string)
    requires IsCleanSlug(s)
    ensures Clean(s) == s
  {
    calc {
      Clean(s);
      StripHyphens(SqueezeHyphens(SpacesToHyphens(KeepChars(Trim(ToLowerAscii(s))), false), false));
      { LowerCleanSlug(s); TrimCleanSlug(s); }
      StripHyphens(SqueezeHyphens(SpacesToHyphens(KeepChars(s), false), false));
      { KeepCleanSlug(s); SpacesCleanSlug(s, false); }
      StripHyphens(SqueezeHyphens(s, false));
      { SqueezeCleanSlug(s, false); }
      StripHyphens(s);
      { assert DropLeadingHyphens(s) == s; assert DropTrailingHyphens(s) == s; }
      s;
    }
  }

  lemma CleanIdempotent(name: string)
    ensures Clean(Clean(name)) == Clean(name)
  {
    CleanFixesCleanSlugs(Clean(name));
  }

  // ---------------------------------------------------------------------
  // A one-pass reading of the pipeline
  // ---------------------------------------------------------------------

  /** What separates words in a name: white space or a hyphen. */
  predicate IsSeparator(c: char) {
    IsSpace(c) || c == '-'
  }

  /** Where a left-to-right reading stands: whether a separator has been
      read since the last word character, and whether a word character has
      been emitted yet. */
  datatype Scan = Scan(pending: bool, started: bool)

  const Fresh := Scan(false, false)

  /** The slug of a lower-cased name read once from the left: every word
      character is kept, one hyphen stands wherever separators come between
      two word characters, and every other character is dropped. `Clean`
      is this function (`CleanIsScan`). */
  function ScanSlug(s: string, st: Scan): string {
    if s == [] then []
    else if IsWordChar(s[0]) then
      (if st.pending && st.started then ['-', s[0]] else [s[0]]) + ScanSlug(s[1..], Scan(false, true))
    else if IsSeparator(s[0]) then ScanSlug(s[1..], Scan(true, st.started))
    else ScanSlug(s[1..], st)
  }

  /** Where the reading stands after `s`. */
  function ScanAfter(s: string, st: Scan): Scan {
    if s == [] then st
    else if IsWordChar(s[0]) then ScanAfter(s[1..], Scan(false, true))
    else if IsSeparator(s[0]) then ScanAfter(s[1..], Scan(true, st.started))
    else ScanAfter(s[1..], st)
  }

  /** The state after the first character of `s`. */
  function Step(c: char, st: Scan): Scan {
    if IsWordChar(c) then Scan(false, true) else if IsSeparator(c) then Scan(true, st.started) else st
  }

  /** A separator at the end adds nothing. */
  lemma {:induction false} ScanSnocSeparator(t: string, c: char, st: Scan)
    requires IsSeparator(c)
    ensures ScanSlug(t + [c], st) == ScanSlug(t, st)
  {
    if IsSpace(c) {
      SpaceIsNoWordChar(c);
    }
    if t != [] {
      assert (t + [c])[1..] == t[1..] + [c];
      ScanSnocSeparator(t[1..], c, Step(t[0], st));
    } else {
      assert ([] + [c])[1..] == [];
    }
  }

  /** Before the first word character, pending separators do not matter. */
  lemma {:induction false} ScanUnstarted(s: string, p: bool)
    ensures ScanSlug(s, Scan(p, false)) == ScanSlug(s, Fresh)
  {
    if s != [] && !IsWordChar(s[0]) && !IsSeparator(s[0]) {
      ScanUnstarted(s[1..], p);
    }
  }

  lemma {:induction false} ScanTrimStart(s: string)
    ensures ScanSlug(TrimStart(s), Fresh) == ScanSlug(s, Fresh)
  {
    if |s| > 0 && IsSpace(s[0]) {
      SpaceIsNoWordChar(s[0]);
      ScanUnstarted(s[1..], true);
      ScanTrimStart(s[1..]);
    }
  }

  lemma {:induction false} ScanTrimEnd(s: string, st: Scan)
    ensures ScanSlug(TrimEnd(s), st) == ScanSlug(s, st)
  {
    if |s| > 0 && IsSpace(s[|s| - 1]) {
      var t := s[..|s| - 1];
      assert s == t + [s[|s| - 1]];
      ScanSnocSeparator(t, s[|s| - 1], st);
      ScanTrimEnd(t, st);
    }
  }

  lemma {:induction false} ScanKeepChars(s: string, st: Scan)
    ensures ScanSlug(KeepChars(s), st) == ScanSlug(s, st)
  {
    if s != [] {
      ScanKeepChars(s[1..], Step(s[0], st));
      ScanKeepChars(s[1..], st);
      if IsKept(s[0]) {
        assert ([s[0]] + KeepChars(s[1..]))[1..] == KeepChars(s[1..]);
      }
    }
  }

  lemma {:induction false} ScanSpacesToHyphens(s: string, b: bool, st: Scan)
    requires b ==> st.pending
    ensures ScanSlug(SpacesToHyphens(s, b), st) == ScanSlug(s, st)
  {
    if s != [] {
      if IsSpace(s[0]) {
        SpaceIsNoWordChar(s[0]);
        var rest := SpacesToHyphens(s[1..], true);
        ScanSpacesToHyphens(s[1..], true, Scan(true, st.started));
        assert (['-'] + rest)[1..] == rest;
      } else {
        var rest := SpacesToHyphens(s[1..], false);
        ScanSpacesToHyphens(s[1..], false, Step(s[0], st));
        assert ([s[0]] + rest)[1..] == rest;
      }
    }
  }

  lemma {:induction false} ScanSqueezeHyphens(s: string, b: bool, st: Scan)
    requires b ==> st.pending
    ensures ScanSlug(SqueezeHyphens(s, b), st) == ScanSlug(s, st)
  {
    if s != [] {
      if s[0] == '-' {
        var rest := SqueezeHyphens(s[1..], true);
        ScanSqueezeHyphens(s[1..], true, Scan(true, st.started));
        assert (['-'] + rest)[1..] == rest;
      } else {
        var rest := SqueezeHyphens(s[1..], false);
        ScanSqueezeHyphens(s[1..], false, Step(s[0], st));
        assert ([s[0]] + rest)[1..] == rest;
      }
    }
  }

  lemma {:induction false} ScanDropLeadingHyphens(s: string)
    ensures ScanSlug(DropLeadingHyphens(s), Fresh) == ScanSlug(s, Fresh)
  {
    if |s| > 0 && s[0] == '-' {
      ScanUnstarted(s[1..], true);
      ScanDropLeadingHyphens(s[1..]);
    }
  }

  lemma {:induction false} ScanDropTrailingHyphens(s: string)
    ensures ScanSlug(DropTrailingHyphens(s), Fresh) == ScanSlug(s, Fresh)
  {
    if |s| > 0 && s[|s| - 1] == '-' {
      var t := s[..|s| - 1];
      assert s == t + ['-'];
      ScanSnocSeparator(t, '-', Fresh);
      ScanDropTrailingHyphens(t);
    }
  }

  /** The four-step pipeline computes the one-pass reading of the
      lower-cased name. */
  lemma CleanIsScan(name: string)
    ensures Clean(name) == ScanSlug(ToLowerAscii(name), Fresh)
  {
    var lowered := ToLowerAscii(name);
    var trimmed := Trim(lowered);
    var kept := KeepChars(trimmed);
    var hyphened := SpacesToHyphens(kept, false);
    var squeezed := SqueezeHyphens(hyphened, false);
    var leading := DropLeadingHyphens(squeezed);
    assert ScanSlug(trimmed, Fresh) == ScanSlug(lowered, Fresh) by {
      ScanTrimStart(lowered);
      ScanTrimEnd(TrimStart(lowered), Fresh);
    }
    assert ScanSlug(kept, Fresh) == ScanSlug(trimmed, Fresh) by {
      ScanKeepChars(trimmed, Fresh);
    }
    assert ScanSlug(squeezed, Fresh) == ScanSlug(kept, Fresh) by {
      ScanSpacesToHyphens(kept, false, Fresh);
      ScanSqueezeHyphens(hyphened, false, Fresh);
    }
    assert ScanSlug(DropTrailingHyphens(leading), Fresh) == ScanSlug(squeezed, Fresh) by {
      ScanDropLeadingHyphens(squeezed);
      ScanDropTrailingHyphens(leading);
    }
    assert Clean(name) == DropTrailingHyphens(leading);
    ScanCleanSlug(Clean(name), false);
  }

  /** A clean slug is read back as it is: the reading is the identity on
      its own results. */
  lemma {:induction false} ScanCleanSlug(s: string, started: bool)
    requires InSlugAlphabet(s) && NoDoubleHyphen(s)
    requires s == [] || s[|s| - 1] != '-'
    requires s != [] && s[0] == '-' ==> started
    ensures ScanSlug(s, Scan(false, started)) == s
  {
    if s != [] {
      if s[0] == '-' {
        assert |s| >= 2 && s[1] != '-' && IsWordChar(s[1]);
        SliceKeepsShape(s, 2, |s|);
        assert s[1..][1..] == s[2..];
        ScanCleanSlug(s[2..], true);
        assert s == ['-', s[1]] + s[2..];
      } else {
        SliceKeepsShape(s, 1, |s|);
        ScanCleanSlug(s[1..], true);
        assert s == [s[0]] + s[1..];
      }
    }
  }

  lemma {:induction false} ScanAppend(x: string, y: string, st: Scan)
    ensures ScanSlug(x + y, st) == ScanSlug(x, st) + ScanSlug(y, ScanAfter(x, st))
  {
    if x == [] {
      assert x + y == y;
    } else {
      assert (x + y)[1..] == x[1..] + y;
      ScanAppend(x[1..], y, Step(x[0], st));
    }
  }

  lemma {:induction false} ScanStarted(x: string, st: Scan)
    ensures ScanAfter(x, st).started <==> st.started || ScanSlug(x, st) != []
  {
    if x != [] {
      ScanStarted(x[1..], Step(x[0], st));
    }
  }

  /** After a word and a separator, the next word is preceded by a hyphen. */
  lemma {:induction false} ScanPendingStarted(y: string)
    ensures ScanSlug(y, Scan(true, true)) == if ScanSlug(y, Fresh) == [] then [] else ['-'] + ScanSlug(y, Fresh)
  {
    if y != [] && !IsWordChar(y[0]) {
      ScanUnstarted(y[1..], true);
      ScanPendingStarted(y[1..]);
    }
  }

  /** Joining two names with a space joins their slugs with one hyphen, and
      a name that cleans to nothing leaves the other's slug as it is. */
  lemma CleanJoin(a: string, b: string)
    ensures Clean(a + " " + b) ==
      if Clean(a) == [] then Clean(b)
      else if Clean(b) == [] then Clean(a)
      else Clean(a) + "-" + Clean(b)
  {
    var la, lb := ToLowerAscii(a), ToLowerAscii(b);
    LowerJoin(a, b);
    CleanIsScan(a);
    CleanIsScan(b);
    CleanIsScan(a + " " + b);
    ScanJoin(la, lb);
  }

  lemma LowerJoin(a: string, b: string)
    ensures ToLowerAscii(a + " " + b) == ToLowerAscii(a) + ([' '] + ToLowerAscii(b))
  {
    var l, r := ToLowerAscii(a + " " + b), ToLowerAscii(a) + ([' '] + ToLowerAscii(b));
    assert |l| == |r|;
    forall i | 0 <= i < |l| ensures l[i] == r[i] {
      if i < |a| {
        assert (a + " " + b)[i] == a[i];
      } else if i == |a| {
        assert (a + " " + b)[i] == ' ';
      } else {
        assert (a + " " + b)[i] == b[i - |a| - 1];
      }
    }
  }

  /** `CleanJoin` for the one-pass reading. */
  lemma ScanJoin(x: string, y: string)
    ensures ScanSlug(x + ([' '] + y), Fresh) ==
      if ScanSlug(x, Fresh) == [] then ScanSlug(y, Fresh)
      else if ScanSlug(y, Fresh) == [] then ScanSlug(x, Fresh)
      else ScanSlug(x, Fresh) + "-" + ScanSlug(y, Fresh)
  {
    ScanAppend(x, [' '] + y, Fresh);
    var st := ScanAfter(x, Fresh);
    ScanStarted(x, Fresh);
    assert ([' '] + y)[1..] == y;
    assert ScanSlug([' '] + y, st) == ScanSlug(y, Scan(true, st.started));
    if st.started {
      ScanPendingStarted(y);
    } else {
      ScanUnstarted(y, true);
    }
  }

  /** Without separators the reading keeps exactly the word characters. */
  lemma {:induction false} ScanWithoutSeparators(s: string, started: bool)
    requires forall i :: 0 <= i < |s| ==> !IsSeparator(s[i])
    ensures ScanSlug(s, Scan(false, started)) == Letters(s)
  {
    if s != [] {
      ScanWithoutSeparators(s[1..], if IsWordChar(s[0]) then true else started);
    }
  }

  /** A name without white space or hyphens cleans to its lower-cased word
      characters. */
  lemma CleanWithoutSeparators(name: string)
    requires forall i :: 0 <= i < |name| ==> !IsSpace(name[i]) && name[i] != '-'
    ensures Clean(name) == Letters(ToLowerAscii(name))
  {
    var lowered := ToLowerAscii(name);
    forall i | 0 <= i < |lowered|
      ensures !IsSeparator(lowered[i])
    {
      LowerKeepsSeparators(name[i]);
    }
    CleanIsScan(name);
    ScanWithoutSeparators(lowered, false);
  }

  /** Lower-casing neither makes nor removes a separator. */
  lemma LowerKeepsSeparators(c: char)
    ensures IsSeparator(LowerChar(c)) <==> IsSeparator(c)
  {
  }

  // ---------------------------------------------------------------------
  // simpleHash
  // ---------------------------------------------------------------------

  const TwoTo32: int := 0x1_0000_0000
  const TwoTo31: int := 0x8000_0000

  /** ECMAScript ToInt32: the signed 32-bit integer congruent to `x`. */
  function ToInt32(x: int): (r: int)
    ensures -TwoTo31 <= r < TwoTo31
    ensures (r - x) % TwoTo32 == 0
  {
    var m := x % TwoTo32;
    if m >= TwoTo31 then m - TwoTo32 else m
  }

  /** One step of the loop: `hash = ((hash << 5) - hash) + char;
      hash = hash & hash`. The shift wraps to 32 bits, the subtraction and
      addition are exact, and `hash & hash` wraps again. */
  function HashStep(hash: int, c: char): (r: int)
    ensures -TwoTo31 <= r < TwoTo31
  {
    ToInt32(ToInt32(hash * 32) - hash + c as int)
  }

  /** The value of `hash` after the loop has consumed `s`. */
  function HashValue(s: string): (r: int)
    ensures -TwoTo31 <= r < TwoTo31
  {
    if s == [] then 0 else HashStep(HashValue(s[..|s| - 1]), s[|s| - 1])
  }

  /** The hash is the polynomial `sum c_i * 31^(n-1-i)` taken modulo 2^32. */
  lemma {:induction false} HashStepIsMultiplyAdd(hash: int, c: char)
    ensures (HashStep(hash, c) - (31 * hash + c as int)) % TwoTo32 == 0
  {
    var a := ToInt32(hash * 32);
    var k1 := (a - hash * 32) / TwoTo32;
    assert a - hash * 32 == k1 * TwoTo32;
    var b := a - hash + c as int;
    var r := ToInt32(b);
    var k2 := (r - b) / TwoTo32;
    assert r - b == k2 * TwoTo32;
    assert r - (31 * hash + c as int) == (k1 + k2) * TwoTo32;
    MultipleModZero(k1 + k2);
  }

  lemma MultipleModZero(k: int)
    ensures (k * TwoTo32) % TwoTo32 == 0
  {
    var x := k * TwoTo32;
    var q, m := x / TwoTo32, x % TwoTo32;
    assert x == q * TwoTo32 + m && 0 <= m < TwoTo32;
    assert (k - q) * TwoTo32 == m;
    assert k == q;
  }

  /** The longest prefix of at most `n` characters (`substring(0, n)`). */
  function Prefix(s: string, n: nat): (r: string)
    ensures |r| <= n && |r| <= |s| && r == s[..|r|]
    ensures |s| <= n ==> r == s
    ensures |s| > n ==> |r| == n
  {
    if |s| <= n then s else s[..n]
  }

  lemma Pow36()
    ensures Pow(36, 6) == 2176782336
  {
    calc {
      Pow(36, 6);
      36 * Pow(36, 5);
      36 * (36 * Pow(36, 4));
      36 * (36 * (36 * Pow(36, 3)));
      36 * (36 * (36 * (36 * Pow(36, 2))));
      36 * (36 * (36 * (36 * (36 * Pow(36, 1)))));
      36 * (36 * (36 * (36 * (36 * (36 * Pow(36, 0))))));
    }
  }

  /** `simpleHash`: `Math.abs(hash).toString(36).substring(0, 8)`. */
  function SimpleHash(s: string): (r: string)
    ensures 1 <= |r| <= 6 && AllDigitsOf(r, 36)
    ensures |r| > 1 ==> r[0] != '0'
    ensures RadixValue(r, 36) == if HashValue(s) < 0 then -HashValue(s) else HashValue(s)
  {
    var h := HashValue(s);
    var magnitude: nat := if h < 0 then -h else h;
    var digits := Radix(magnitude, 36);
    Pow36();
    RadixLength(magnitude, 36, 6);
    RadixRoundTrip(magnitude, 36);
    assert Prefix(digits, 8) == digits;
    Prefix(digits, 8)
  }

  // ---------------------------------------------------------------------
  // generateSlug
  // ---------------------------------------------------------------------

  predicate HasHangul(s: string) {
    exists i :: 0 <= i < |s| && IsHangul(s[i])
  }

  lemma DigitsInSlugAlphabet(hash: string)
    requires AllDigitsOf(hash, 36)
    ensures InSlugAlphabet(hash)
  {
    forall i | 0 <= i < |hash| ensures IsWordChar(hash[i]) {
      assert IsDigitOf(hash[i], 36);
    }
  }

  /** `${slug}-${hash}`.substring(0, 100)`. */
  function Tagged(slug: string, hash: string): (r: string)
    requires IsCleanSlug(slug) && slug != [] && AllDigitsOf(hash, 36)
    ensures 0 < |r| <= 100 && r[0] != '-' && InSlugAlphabet(r)
    ensures |r| <= |slug| ==> r == slug[..|r|]
    ensures |r| > |slug| ==> r[..|slug|] == slug && r[|slug|] == '-'
  {
    var t := slug + "-" + hash;
    DigitsInSlugAlphabet(hash);
    forall i | 0 <= i < |t| ensures IsWordChar(t[i]) || t[i] == '-' {
      if i > |slug| {
        assert t[i] == hash[i - |slug| - 1];
      }
    }
    assert t[0] == slug[0];
    Prefix(t, 100)
  }

  /** `generateSlug`. The Hangul branch recomputes the same cleaned string,
      so one computation stands for both. */
  function GenerateSlug(name: string): (r: string)
    ensures name == [] <==> r == []
    ensures r != [] ==> r[0] != '-'
    ensures InSlugAlphabet(r)
  {
    if name == [] then []
    else
      var slug := Clean(name);
      if HasHangul(slug) then Tagged(slug, SimpleHash(name))
      else if slug == [] then
        HospitalIsSlug();
        "hospital"
      else slug
  }

  lemma HospitalIsSlug()
    ensures IsCleanSlug("hospital")
  {
    var h := "hospital";
    assert forall i :: 0 <= i < |h| ==> IsAsciiLower(h[i]);
  }

  /** Without Hangul the slug is the cleaned name, or "hospital" when
      cleaning leaves nothing. */
  lemma PlainSlugIsCleanName(name: string)
    requires name != [] && !HasHangul(Clean(name))
    ensures Clean(name) != [] ==> GenerateSlug(name) == Clean(name)
    ensures Clean(name) == [] ==> GenerateSlug(name) == "hospital"
  {
  }

  /** With Hangul the slug is the cleaned name, a hyphen and the hash, cut to
      100 characters: the cleaned name (or as much of it as fits) comes
      first, and the hyphen follows it when there is room. */
  lemma HangulSlugShape(name: string)
    requires HasHangul(Clean(name))
    ensures |GenerateSlug(name)| <= 100
    ensures var r, c := GenerateSlug(name), Clean(name);
      |r| <= |c| ==> r == c[..|r|]
    ensures var r, c := GenerateSlug(name), Clean(name);
      |r| > |c| ==> r[..|c|] == c && r[|c|] == '-'
    ensures |Clean(name)| < 100 ==> |GenerateSlug(name)| > |Clean(name)|
  {
  }

  /** A Hangul slug carries the name's hash unless the cleaned name is long:
      when it has at most 92 characters the whole hash survives the cut. */
  lemma HangulSlugEndsWithHash(name: string)
    requires HasHangul(Clean(name)) && |Clean(name)| <= 92
    ensures GenerateSlug(name) == Clean(name) + "-" + SimpleHash(name)
  {
  }

  /** When the cleaned name has 100 characters or more the cut drops the hash
      entirely, so two such names that agree on their first hundred
      characters get the same slug. */
  lemma LongHangulSlugsLoseHash(a: string, b: string)
    requires HasHangul(Clean(a)) && HasHangul(Clean(b))
    requires |Clean(a)| >= 100 && |Clean(b)| >= 100
    requires Clean(a)[..100] == Clean(b)[..100]
    ensures GenerateSlug(a) == GenerateSlug(b)
  {
    var ca, cb := Clean(a), Clean(b);
    var ra, rb := GenerateSlug(a), GenerateSlug(b);
    assert a != [] && b != [];
    assert ra == Tagged(ca, SimpleHash(a));
    assert rb == Tagged(cb, SimpleHash(b));
    assert |ra| == 100 && |rb| == 100;
    assert ra == ca[..100];
    assert rb == cb[..100];
  }

  /** Without Hangul the slug is the cleaned name itself, and cleaning it
      again changes nothing. */
  lemma PlainSlugIsStable(name: string)
    requires name != [] && !HasHangul(Clean(name)) && Clean(name) != []
    ensures GenerateSlug(GenerateSlug(name)) == GenerateSlug(name)
  {
    CleanIdempotent(name);
  }

  lemma GenerateSlugExample()
    ensures GenerateSlug("") == ""
    ensures GenerateSlug("!!!") == "hospital"
  {
    var bang := "!!!";
    assert ToLowerAscii(bang) == bang;
    assert Letters(bang[3..]) == [];
    assert Letters(bang[2..]) == [];
    assert Letters(bang[1..]) == [];
    assert Letters(bang) == [];
    CleanWithoutLetters(Clean(bang));
  }

  /** A clean slug without word characters is empty. */
  lemma CleanWithoutLetters(s: string)
    requires IsCleanSlug(s) && Letters(s) == []
    ensures s == []
  {
  }

  // ---------------------------------------------------------------------
  // ensureUniqueSlug
  // ---------------------------------------------------------------------

  /** The slug tried after `k` rejections: the base itself, then
      `base-1`, `base-2`, ... */
  function Candidate(base: string, k: nat): (r: string)
  {
    if k == 0 then base else base + "-" + IntToString(k)
  }

  /** Different retry counts never produce the same candidate, so the loop
      never offers a slug it has already seen rejected. */
  lemma CandidatesDistinct(base: string, j: nat, k: nat)
    requires j != k
    ensures Candidate(base, j) != Candidate(base, k)
  {
    if j > 0 && k > 0 {
      var cj := Candidate(base, j);
      var ck := Candidate(base, k);
      assert cj[|base| + 1..] == IntToString(j);
      assert ck[|base| + 1..] == IntToString(k);
      ParseIntToString(j);
      ParseIntToString(k);
    } else if j > 0 {
      assert |Candidate(base, j)| > |base|;
    } else {
      assert |Candidate(base, k)| > |base|;
    }
  }

  /** `ensureUniqueSlug` with the uniqueness query as a pure function of the
      slug. The source loops for as long as the query says no, so the model
      asks that some candidate be accepted. */
  method EnsureUniqueSlug(base: string, isUnique: string -> bool) returns (slug: string, tries: nat)
    requires exists k: nat :: isUnique(Candidate(base, k))
    ensures slug == Candidate(base, tries) && isUnique(slug)
    ensures forall j: nat :: j < tries ==> !isUnique(Candidate(base, j))
  {
    ghost var bound: nat :| isUnique(Candidate(base, bound));
    slug := base;
    var counter := 1;
    while !isUnique(slug)
      invariant 1 <= counter && slug == Candidate(base, counter - 1)
      invariant forall j: nat :: j < counter - 1 ==> !isUnique(Candidate(base, j))
      invariant counter - 1 <= bound
      decreases bound - (counter - 1)
    {
      slug := base + "-" + IntToString(counter);
      counter := counter + 1;
    }
    tries := counter - 1;
  }
}
