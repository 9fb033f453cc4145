/**
 * The parts of Python's `str` and `int` semantics that the topology code relies on:
 * `str.strip()`, `str.startswith()`, `int(s)` on a string, `str(n)` on an int,
 * the code-point ordering `sorted` uses on strings, and `sorted(set(xs))`.
 */
module Text {
  import opened Wrappers

  /** The characters Python's `str.isspace()` accepts, which `str.strip()` removes from both ends. */
  predicate IsSpace(c: char)
  {
    ('\t' <= c <= '\r') || ('\U{1C}' <= c <= ' ') || c == '\U{85}' || c == '\U{A0}' || c == '\U{1680}'
    || ('\U{2000}' <= c <= '\U{200A}') || c == '\U{2028}' || c == '\U{2029}' || c == '\U{202F}'
    || c == '\U{205F}' || c == '\U{3000}'
  }

  /**
   * Which characters count as padding: `StrBlanks` for `str.strip()`, `IntBlanks` for `int()` on a
   * string. `int()` turns only non-ASCII whitespace into a space and then skips ASCII
   * "\t\n\v\f\r " alone, so the ASCII separators U+001C to U+001F are padding for `strip()` but
   * make `int()` raise.
   */
  datatype Blanks = StrBlanks | IntBlanks

  predicate IsBlank(w: Blanks, c: char)
  {
    IsSpace(c) && (w == IntBlanks ==> !('\U{1C}' <= c <= '\U{1F}'))
  }

  predicate AllBlank(w: Blanks, s: string)
  {
    forall i :: 0 <= i < |s| ==> IsBlank(w, s[i])
  }

  /** Neither end of `s` is padding. */
  predicate IsTrimmed(w: Blanks, s: string)
  {
    |s| == 0 || (!IsBlank(w, s[0]) && !IsBlank(w, s[|s| - 1]))
  }

  /** `s` without its leading padding. */
  function TrimLeft(w: Blanks, s: string): string
  {
    if |s| > 0 && IsBlank(w, s[0]) then TrimLeft(w, s[1..]) else s
  }

  /** `s` without its trailing padding. */
  function TrimRight(w: Blanks, s: string): string
  {
    if |s| > 0 && IsBlank(w, s[|s| - 1]) then TrimRight(w, s[..|s| - 1]) else s
  }

  /** `TrimLeft` drops a run of padding from the front and keeps the rest, which does not start with padding. */
  lemma {:induction false} TrimLeftShape(w: Blanks, s: string)
    ensures |TrimLeft(w, s)| <= |s| && TrimLeft(w, s) == s[|s| - |TrimLeft(w, s)|..]
    ensures TrimLeft(w, s) == [] || !IsBlank(w, TrimLeft(w, s)[0])
    ensures AllBlank(w, s[..|s| - |TrimLeft(w, s)|])
  {
    if |s| > 0 && IsBlank(w, s[0]) {
      TrimLeftShape(w, s[1..]);
      var r := TrimLeft(w, s);
      assert s[1..][|s| - 1 - |r|..] == s[|s| - |r|..];
      assert forall i :: 1 <= i < |s| - |r| ==> s[i] == s[1..][..|s| - 1 - |r|][i - 1];
    }
  }

  /** `TrimRight` drops a run of padding from the back and keeps the rest, which does not end with padding. */
  lemma {:induction false} TrimRightShape(w: Blanks, s: string)
    ensures |TrimRight(w, s)| <= |s| && TrimRight(w, s) == s[..|TrimRight(w, s)|]
    ensures TrimRight(w, s) == [] || !IsBlank(w, TrimRight(w, s)[|TrimRight(w, s)| - 1])
    ensures AllBlank(w, s[|TrimRight(w, s)|..])
  {
    if |s| > 0 && IsBlank(w, s[|s| - 1]) {
      TrimRightShape(w, s[..|s| - 1]);
      var r := TrimRight(w, s);
      assert forall i :: |r| <= i < |s| - 1 ==> s[i] == s[..|s| - 1][|r|..][i - |r|];
    }
  }

  /** `s` without the padding at either end. */
  function Trim(w: Blanks, s: string): (r: string)
  {
    TrimRight(w, TrimLeft(w, s))
  }

  /** Python's `s.strip()`. */
  function Strip(s: string): (r: string)
  {
    Trim(StrBlanks, s)
  }

  /** Where `Trim(w, s)` starts inside `s`: the length of the leading padding. */
  function TrimStart(w: Blanks, s: string): nat
  {
    TrimLeftShape(w, s);
    |s| - |TrimLeft(w, s)|
  }

  /**
   * `Trim(w, s)` is the slice of `s` left between a run of leading and a run of trailing padding, and
   * its ends are not padding; with `StrBlanks` this is `strip()`.
   */
  lemma TrimShape(w: Blanks, s: string)
    ensures IsTrimmed(w, Trim(w, s))
    ensures TrimStart(w, s) + |Trim(w, s)| <= |s|
    ensures s[TrimStart(w, s)..TrimStart(w, s) + |Trim(w, s)|] == Trim(w, s)
    ensures AllBlank(w, s[..TrimStart(w, s)]) && AllBlank(w, s[TrimStart(w, s) + |Trim(w, s)|..])
  {
    var l := TrimLeft(w, s);
    var r := TrimRight(w, l);
    TrimLeftShape(w, s);
    TrimRightShape(w, l);
    var i := |s| - |l|;
    assert s[i..] == l;
    assert s[i..i + |r|] == l[..|r|];
    assert s[i + |r|..] == l[|r|..];
    if r != [] {
      assert r[0] == l[0];
    }
  }

  lemma {:induction false} TrimLeftSpaces(w: Blanks, a: string, m: string)
    requires AllBlank(w, a)
    requires m == [] || !IsBlank(w, m[0])
    ensures TrimLeft(w, a + m) == m
    decreases |a|
  {
    if a == [] {
      assert a + m == m;
    } else {
      assert (a + m)[1..] == a[1..] + m;
      TrimLeftSpaces(w, a[1..], m);
    }
  }

  lemma {:induction false} TrimRightSpaces(w: Blanks, m: string, b: string)
    requires AllBlank(w, b)
    requires m == [] || !IsBlank(w, m[|m| - 1])
    ensures TrimRight(w, m + b) == m
    decreases |b|
  {
    if b == [] {
      assert m + b == m;
    } else {
      assert (m + b)[..|m + b| - 1] == m + b[..|b| - 1];
      TrimRightSpaces(w, m, b[..|b| - 1]);
    }
  }

  /** Trimming removes exactly the surrounding padding: whatever padding surrounds a trimmed core, the core comes back. */
  lemma TrimPadded(w: Blanks, a: string, m: string, b: string)
    requires AllBlank(w, a) && AllBlank(w, b) && IsTrimmed(w, m)
    ensures Trim(w, a + m + b) == m
  {
    if m == [] {
      assert a + m + b == a + b;
      TrimLeftSpaces(w, a + b, []);
      assert a + b + [] == a + b;
    } else {
      assert a + m + b == a + (m + b);
      TrimLeftSpaces(w, a, m + b);
      TrimRightSpaces(w, m, b);
    }
  }

  /** A trimmed string is its own trim: `s.strip().strip() == s.strip()`. */
  lemma TrimIdempotent(w: Blanks, s: string)
    ensures Trim(w, Trim(w, s)) == Trim(w, s)
  {
    TrimShape(w, s);
    var m := Trim(w, s);
    assert [] + m + [] == m;
    TrimPadded(w, [], m, []);
  }

  /** Padding around a string does not change its trim. */
  lemma TrimIgnoresPadding(w: Blanks, a: string, s: string, b: string)
    requires AllBlank(w, a) && AllBlank(w, b)
    ensures Trim(w, a + s + b) == Trim(w, s)
  {
    TrimShape(w, s);
    var m := Trim(w, s);
    var i := TrimStart(w, s);
    var pre, post := s[..i], s[i + |m|..];
    SplitThree(s, i, i + |m|);
    AllBlankConcat(w, a, pre);
    AllBlankConcat(w, post, b);
    Regroup(a, pre, m, post, b);
    TrimPadded(w, a + pre, m, post + b);
  }

  lemma SplitThree(s: string, i: nat, j: nat)
    requires i <= j <= |s|
    ensures s == s[..i] + s[i..j] + s[j..]
  {
  }

  lemma Regroup(a: string, pre: string, m: string, post: string, b: string)
    ensures a + (pre + m + post) + b == (a + pre) + m + (post + b)
  {
  }

  lemma AllBlankConcat(w: Blanks, a: string, b: string)
    requires AllBlank(w, a) && AllBlank(w, b)
    ensures AllBlank(w, a + b)
  {
    forall k | 0 <= k < |a + b| ensures IsBlank(w, (a + b)[k]) {
      if k >= |a| {
        assert (a + b)[k] == b[k - |a|];
      }
    }
  }

  /** Python's `s.startswith(prefix)`. */
  predicate StartsWith(s: string, prefix: string)
  {
    |prefix| <= |s| && s[..|prefix|] == prefix
  }

  /** An ASCII decimal digit; the other Unicode decimal digits Python's `int()` accepts are not modelled. */
  predicate IsDigit(c: char)
  {
    '0' <= c <= '9'
  }

  predicate AllDigits(s: string)
  {
    forall i :: 0 <= i < |s| ==> IsDigit(s[i])
  }

  function DigitValue(c: char): nat
    requires IsDigit(c)
  {
    (c as int) - ('0' as int)
  }

  function DigitChar(d: nat): (c: char)
    requires d < 10
    ensures IsDigit(c) && DigitValue(c) == d
  {
    (('0' as int) + d) as char
  }

  /** The number a run of decimal digits denotes. */
  function DigitsValue(ds: string): nat
    requires AllDigits(ds)
  {
    if ds == [] then 0 else DigitsValue(ds[..|ds| - 1]) * 10 + DigitValue(ds[|ds| - 1])
  }

  /** Decimal rendering of a natural number, as `str(n)` gives it. */
  function NatToString(n: nat): (s: string)
    ensures |s| > 0 && AllDigits(s)
  {
    if n < 10 then [DigitChar(n)] else NatToString(n / 10) + [DigitChar(n % 10)]
  }

  /** Python's `str(n)` for an int. */
  function IntToString(n: int): string
  {
    if n < 0 then "-" + NatToString(-n) else NatToString(n)
  }

  lemma {:induction false} NatToStringValue(n: nat)
    ensures DigitsValue(NatToString(n)) == n
  {
    if n >= 10 {
      var s := NatToString(n);
      assert s[..|s| - 1] == NatToString(n / 10);
      NatToStringValue(n / 10);
    }
  }

  /** A rendered int contains no whitespace, no comma, no quote, no parenthesis and no equals sign. */
  lemma IntToStringChars(n: int)
    ensures |IntToString(n)| > 0
    ensures forall i :: 0 <= i < |IntToString(n)| ==> IsDigit(IntToString(n)[i]) || IntToString(n)[i] == '-'
  {
  }

  /**
   * The digit part of `int()`'s argument, restricted to ASCII digits: Python also accepts every other
   * Unicode decimal digit (category Nd, such as "\u0663"), which this model leaves out. A single
   * underscore may stand between two digits ("1_000").
   */
  predicate IsDigitGroup(s: string)
  {
    && |s| > 0 && IsDigit(s[0]) && IsDigit(s[|s| - 1])
    && (forall i :: 0 <= i < |s| ==> IsDigit(s[i]) || s[i] == '_')
    && (forall i :: 0 <= i < |s| - 1 && s[i] == '_' ==> IsDigit(s[i + 1]))
  }

  function RemoveUnderscores(s: string): (r: string)
    requires forall i :: 0 <= i < |s| ==> IsDigit(s[i]) || s[i] == '_'
    ensures AllDigits(r) && |r| <= |s|
  {
    if s == [] then [] else (if s[0] == '_' then [] else [s[0]]) + RemoveUnderscores(s[1..])
  }

  function GroupValue(s: string): nat
    requires IsDigitGroup(s)
  {
    DigitsValue(RemoveUnderscores(s))
  }

  /**
   * Python's `int(s)` for a string argument in base 10: surrounding `IntBlanks` padding is ignored,
   * then one optional sign and a digit group. `None` stands for the `ValueError` Python raises.
   */
  function ParseInt(s: string): Option<int>
  {
    var t := Trim(IntBlanks, s);
    if |t| > 0 && (t[0] == '-' || t[0] == '+') then
      if IsDigitGroup(t[1..]) then
        var v: int := GroupValue(t[1..]);
        Some(if t[0] == '-' then -v else v)
      else None
    else if IsDigitGroup(t) then Some(GroupValue(t))
    else None
  }

  lemma {:induction false} RemoveUnderscoresOfDigits(s: string)
    requires AllDigits(s)
    ensures RemoveUnderscores(s) == s
  {
    if s != [] {
      RemoveUnderscoresOfDigits(s[1..]);
    }
  }

  lemma IntToStringTrimmed(n: int)
    ensures Trim(IntBlanks, IntToString(n)) == IntToString(n)
  {
    var s := IntToString(n);
    assert IsTrimmed(IntBlanks, s);
    assert [] + s + [] == s;
    TrimPadded(IntBlanks, [], s, []);
  }

  lemma DigitsAreDigitGroup(d: string)
    requires |d| > 0 && AllDigits(d)
    ensures IsDigitGroup(d) && GroupValue(d) == DigitsValue(d)
  {
    RemoveUnderscoresOfDigits(d);
  }

  /** `int(str(n)) == n`: rendering an int and parsing it back is the identity, for every int. */
  lemma ParseIntRoundTrip(n: int)
    ensures ParseInt(IntToString(n)) == Some(n)
  {
    IntToStringTrimmed(n);
    if n < 0 {
      var d := NatToString(-n);
      assert IntToString(n)[1..] == d;
      DigitsAreDigitGroup(d);
      NatToStringValue(-n);
    } else {
      var d := NatToString(n);
      assert !(d[0] == '-' || d[0] == '+');
      DigitsAreDigitGroup(d);
      NatToStringValue(n);
    }
  }

  /** `int()` ignores whitespace padding: `int("  42\n") == int("42")`. */
  lemma ParseIntIgnoresPadding(a: string, s: string, b: string)
    requires AllBlank(IntBlanks, a) && AllBlank(IntBlanks, b)
    ensures ParseInt(a + s + b) == ParseInt(s)
  {
    TrimIgnoresPadding(IntBlanks, a, s, b);
  }

  /** `strip()` drops a leading U+001C but `int()` raises on it, while both skip a space: the two padding sets differ. */
  lemma SeparatorIsNoIntPadding()
    ensures Strip("\U{1C}5") == "5"
    ensures ParseInt("\U{1C}5") == None && ParseInt(" 5") == Some(5)
  {
    assert TrimLeft(StrBlanks, "\U{1C}5") == TrimLeft(StrBlanks, "5");
    assert IsDigitGroup("5") && RemoveUnderscores("5") == "5";
    assert Trim(IntBlanks, " 5") == "5" by {
      assert TrimLeft(IntBlanks, " 5") == TrimLeft(IntBlanks, "5");
    }
  }

  /**
   * `int()` succeeds only on text made of `int()`'s padding, signs, digits and underscores, holding at
   * least one digit: the separators U+001C to U+001F, for instance, make it fail.
   */
  lemma ParseIntAlphabet(s: string)
    requires ParseInt(s).Some?
    ensures forall i :: 0 <= i < |s| ==> IsBlank(IntBlanks, s[i]) || IsDigit(s[i]) || s[i] in "+-_"
    ensures exists i :: 0 <= i < |s| && IsDigit(s[i])
  {
    TrimShape(IntBlanks, s);
    var t := Trim(IntBlanks, s);
    var k := TrimStart(IntBlanks, s);
    var signed := t[0] == '-' || t[0] == '+';
    var g := if signed then t[1..] else t;
    assert IsDigitGroup(g);
    forall i | 0 <= i < |s| ensures IsBlank(IntBlanks, s[i]) || IsDigit(s[i]) || s[i] in "+-_" {
      if i < k {
        assert s[i] == s[..k][i];
      } else if i < k + |t| {
        assert s[i] == t[i - k];
        if signed && i > k {
          assert t[i - k] == g[i - k - 1];
        }
      } else {
        assert s[i] == s[k + |t|..][i - k - |t|];
      }
    }
    var j := if signed then 1 else 0;
    assert t[j] == g[0];
    assert s[k + j] == t[j];
  }

  /** Position of the first `c` in `s`, or `|s|` when there is none. */
  function IndexOf(s: string, c: char): (i: nat)
    ensures i <= |s|
    ensures i < |s| ==> s[i] == c
    ensures forall j :: 0 <= j < i ==> s[j] != c
  {
    if s == [] then 0 else if s[0] == c then 0 else 1 + IndexOf(s[1..], c)
  }

  lemma {:induction false} IndexOfAppend(a: string, b: string, c: char)
    requires c !in a
    ensures IndexOf(a + b, c) == |a| + IndexOf(b, c)
  {
    if a != [] {
      assert (a + b)[1..] == a[1..] + b;
      IndexOfAppend(a[1..], b, c);
    } else {
      assert a + b == b;
    }
  }

  /** Where the pieces of `name + " (" + tag + ")"` sit when `name` holds no "(". */
  lemma Bracketed(name: string, tag: string)
    requires '(' !in name
    ensures var s := name + " (" + tag + ")";
      IndexOf(s, '(') == |name| + 1 && s[|name|] == ' ' && s[|s| - 1] == ')' &&
      s[..|name|] == name && s[|name| + 2..|s| - 1] == tag
  {
    var s := name + " (" + tag + ")";
    var rest := " (" + tag + ")";
    assert s == name + rest;
    IndexOfAppend(name, rest, '(');
    assert IndexOf(rest, '(') == 1;
    assert s[|name| + 2..|s| - 1] == tag;
    assert s[..|name|] == name;
  }

  /** Python's ordering on `str`: code point by code point, a proper prefix before its extensions. */
  predicate StrLess(a: string, b: string)
  {
    if |a| == 0 then |b| > 0
    else if |b| == 0 then false
    else a[0] < b[0] || (a[0] == b[0] && StrLess(a[1..], b[1..]))
  }

  lemma {:induction false} StrLessIrreflexive(a: string)
    ensures !StrLess(a, a)
  {
    if |a| > 0 {
      StrLessIrreflexive(a[1..]);
    }
  }

  lemma {:induction false} StrLessTransitive(a: string, b: string, c: string)
    requires StrLess(a, b) && StrLess(b, c)
    ensures StrLess(a, c)
  {
    if |a| > 0 && a[0] == b[0] && b[0] == c[0] {
      StrLessTransitive(a[1..], b[1..], c[1..]);
    }
  }

  lemma {:induction false} StrLessTotal(a: string, b: string)
    requires a != b
    ensures StrLess(a, b) || StrLess(b, a)
  {
    if |a| > 0 && |b| > 0 && a[0] == b[0] {
      assert a == [a[0]] + a[1..] && b == [b[0]] + b[1..];
      StrLessTotal(a[1..], b[1..]);
    }
  }

  predicate StrictlySorted(s: seq<string>)
  {
    forall i, j :: 0 <= i < j < |s| ==> StrLess(s[i], s[j])
  }

  function InsertSorted(x: string, s: seq<string>): (r: seq<string>)
    requires StrictlySorted(s)
    ensures StrictlySorted(r)
    ensures forall y :: y in r <==> y == x || y in s
  {
    if s == [] then [x]
    else if x == s[0] then s
    else if StrLess(x, s[0]) then
      assert forall j :: 0 < j < |s| ==> StrLess(x, s[j]) by {
        forall j | 0 < j < |s| ensures StrLess(x, s[j]) {
          StrLessTransitive(x, s[0], s[j]);
        }
      }
      [x] + s
    else
      StrLessTotal(x, s[0]);
      var r' := InsertSorted(x, s[1..]);
      assert forall y :: y in r' ==> StrLess(s[0], y);
      [s[0]] + r'
  }

  /** Python's `sorted(set(xs))`. */
  function SortedDistinct(xs: seq<string>): (r: seq<string>)
    ensures StrictlySorted(r)
    ensures forall y :: y in r <==> y in xs
  {
    if xs == [] then [] else InsertSorted(xs[|xs| - 1], SortedDistinct(xs[..|xs| - 1]))
  }

  /** A strictly sorted list is determined by its elements, so `SortedDistinct` is the one sorted listing of a set. */
  lemma {:induction false} SortedUnique(r: seq<string>, s: seq<string>)
    requires StrictlySorted(r) && StrictlySorted(s)
    requires forall y :: y in r <==> y in s
    ensures r == s
  {
    if r != [] && s != [] {
      if r[0] != s[0] {
        assert r[0] in s;
        assert s[0] in r;
        var i :| 0 <= i < |s| && s[i] == r[0];
        var j :| 0 <= j < |r| && r[j] == s[0];
        StrLessTransitive(r[0], s[0], r[0]);
        StrLessIrreflexive(r[0]);
      }
      forall y ensures y in r[1..] <==> y in s[1..] {
        if y in r[1..] {
          var k :| 1 <= k < |r| && r[k] == y;
          StrLessIrreflexive(y);
          assert y in s;
          var m :| 0 <= m < |s| && s[m] == y;
          assert m != 0;
          assert s[1..][m - 1] == y;
        }
        if y in s[1..] {
          var k :| 1 <= k < |s| && s[k] == y;
          StrLessIrreflexive(y);
          assert y in r;
          var m :| 0 <= m < |r| && r[m] == y;
          assert m != 0;
          assert r[1..][m - 1] == y;
        }
      }
      SortedUnique(r[1..], s[1..]);
    } else if r != [] {
      HeadIsElement(r);
      assert false;
    } else if s != [] {
      HeadIsElement(s);
      assert false;
    }
  }

  lemma HeadIsElement(x: seq<string>)
    requires |x| > 0
    ensures x[0] in x
  {
  }

  predicate NoRepeats<T(==)>(s: seq<T>)
  {
    forall i, j :: 0 <= i < j < |s| ==> s[i] != s[j]
  }

  /** A strictly sorted list holds no element twice. */
  lemma SortedHasNoRepeats(s: seq<string>)
    requires StrictlySorted(s)
    ensures NoRepeats(s)
  {
    forall i, j | 0 <= i < j < |s| ensures s[i] != s[j] {
      StrLessIrreflexive(s[i]);
    }
  }
}
