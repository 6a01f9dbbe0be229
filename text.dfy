/**
 * The string operations the dashboard applies to search text, program names and
 * program labels, with Python's semantics: `str.strip()`, `str.upper()`, `in` on
 * strings, `<=` on strings, `str(int)`, `int(str)` and `split("|")[0]`.
 */
module Text {
  import opened Wrappers
  import opened Seqs
  import opened Sorting

  /** Python's `str.isspace` on the Latin-1 range: \t \n \v \f \r, \x1c-\x1f, space, \x85, \xa0. */
  predicate IsSpace(c: char)
  {
    ('\t' <= c <= '\r') || ('\U{1C}' <= c <= ' ') || c == '\U{85}' || c == '\U{A0}'
  }

  predicate AllSpace(s: string)
  {
    forall c :: c in s ==> IsSpace(c)
  }

  /** `s` without its leading blanks. */
  function TrimStart(s: string): (r: string)
    ensures |r| <= |s| && r == s[|s| - |r|..]
    ensures AllSpace(s[..|s| - |r|])
    ensures r == [] || !IsSpace(r[0])
  {
    if s != [] && IsSpace(s[0]) then TrimStart(s[1..]) else s
  }

  /** `s` without its trailing blanks. */
  function TrimEnd(s: string): (r: string)
    ensures |r| <= |s| && r == s[..|r|]
    ensures AllSpace(s[|r|..])
    ensures r == [] || !IsSpace(r[|r| - 1])
  {
    if s != [] && IsSpace(s[|s| - 1]) then TrimEnd(s[..|s| - 1]) else s
  }

  /** `r` is the slice of `s` at `i`, and everything of `s` outside it is blank. */
  ghost predicate BlankPaddedAt(s: string, r: string, i: int)
  {
    0 <= i <= |s| - |r| && r == s[i..i + |r|] && AllSpace(s[..i]) && AllSpace(s[i + |r|..])
  }

  /** Trimming both ends removes only blank padding. */
  lemma TrimBothPadding(s: string)
    ensures exists i :: BlankPaddedAt(s, TrimEnd(TrimStart(s)), i)
  {
    var t := TrimStart(s);
    var r := TrimEnd(t);
    var i := |s| - |t|;
    SliceOfSuffix(s, i, |r|);
    assert BlankPaddedAt(s, r, i);
  }

  /** What is left after trimming both ends neither starts nor ends with a blank. */
  lemma TrimBothEnds(s: string)
    ensures var r := TrimEnd(TrimStart(s)); r == [] || (!IsSpace(r[0]) && !IsSpace(r[|r| - 1]))
  {
    var t := TrimStart(s);
    var r := TrimEnd(t);
    assert r != [] ==> r[0] == t[0];
  }

  /** Python's `s.strip()`: `s` less blank padding on both sides, neither starting nor ending with a blank. */
  function Strip(s: string): (r: string)
    ensures r == [] || (!IsSpace(r[0]) && !IsSpace(r[|r| - 1]))
    ensures exists i :: BlankPaddedAt(s, r, i)
  {
    TrimBothPadding(s);
    TrimBothEnds(s);
    TrimEnd(TrimStart(s))
  }

  /**
   * `Strip` removes exactly the surrounding blanks: a text that neither starts nor
   * ends with a blank comes back unchanged from any blank padding.
   */
  lemma StripPadded(pre: string, x: string, post: string)
    requires AllSpace(pre) && AllSpace(post)
    requires x != [] && !IsSpace(x[0]) && !IsSpace(x[|x| - 1])
    ensures Strip(pre + x + post) == x
  {
    var s := pre + x + post;
    assert s[|pre|] == x[0];
    assert s[..|pre|] == pre;
    var t := TrimStart(s);
    assert t == x + post;
    var r := TrimEnd(t);
    assert t[|x| - 1] == x[|x| - 1];
    assert t[|x|..] == post;
    assert t[..|x|] == x;
  }

  /** Python's `c.upper()` for a character whose upper case is one character in the Latin-1 range. */
  function UpperChar(c: char): char
  {
    if 'a' <= c <= 'z' || ('\U{E0}' <= c <= '\U{FE}' && c != '\U{F7}') then (c as int - 32) as char else c
  }

  /** Python's `s.upper()`, character by character. */
  function Upper(s: string): (r: string)
    ensures |r| == |s|
    ensures forall i :: 0 <= i < |s| ==> r[i] == UpperChar(s[i])
  {
    if s == [] then [] else [UpperChar(s[0])] + Upper(s[1..])
  }

  /** `s` begins with `prefix`. */
  predicate StartsWith(s: string, prefix: string)
  {
    |prefix| <= |s| && s[..|prefix|] == prefix
  }

  /** Python's `sub in s`, scanning start positions left to right. */
  predicate Contains(s: string, sub: string)
    decreases |s|
  {
    StartsWith(s, sub) || (s != [] && Contains(s[1..], sub))
  }

  /** `sub` occurs in `s` starting at position `i`. */
  ghost predicate OccursAt(s: string, sub: string, i: int)
  {
    0 <= i <= |s| - |sub| && s[i..i + |sub|] == sub
  }

  /** The scan finds `sub` exactly when `sub` occurs at some position of `s`. */
  lemma {:induction false} ContainsAt(s: string, sub: string)
    ensures Contains(s, sub) <==> exists i :: OccursAt(s, sub, i)
    decreases |s|
  {
    if StartsWith(s, sub) {
      assert OccursAt(s, sub, 0);
    }
    if s != [] {
      ContainsAt(s[1..], sub);
      if Contains(s[1..], sub) {
        var i :| OccursAt(s[1..], sub, i);
        assert OccursAt(s, sub, i + 1) by {
          assert s[1..][i..i + |sub|] == s[i + 1..i + 1 + |sub|];
        }
      }
      if exists i :: OccursAt(s, sub, i) {
        var i :| OccursAt(s, sub, i);
        if i > 0 {
          assert OccursAt(s[1..], sub, i - 1) by {
            assert s[1..][i - 1..i - 1 + |sub|] == s[i..i + |sub|];
          }
        }
      }
    } else if exists i :: OccursAt(s, sub, i) {
      var i :| OccursAt(s, sub, i);
      assert StartsWith(s, sub);
    }
  }

  /** Every text contains itself. */
  lemma ContainsSelf(x: string)
    ensures Contains(x, x)
  {
    assert StartsWith(x, x);
  }

  /** What a text contains, the text extended on the right contains too. */
  lemma {:induction false} ContainsLeft(a: string, b: string, x: string)
    requires Contains(a, x)
    ensures Contains(a + b, x)
    decreases |a|
  {
    if StartsWith(a, x) {
      assert (a + b)[..|x|] == a[..|x|];
    } else {
      ContainsLeft(a[1..], b, x);
      assert (a + b)[1..] == a[1..] + b;
    }
  }

  /** What a text contains, the text extended on the left contains too. */
  lemma {:induction false} ContainsRight(a: string, b: string, x: string)
    requires Contains(b, x)
    ensures Contains(a + b, x)
    decreases |a|
  {
    if a == [] {
      assert a + b == b;
    } else {
      ContainsRight(a[1..], b, x);
      assert (a + b)[1..] == a[1..] + b;
    }
  }

  /** Python's `a <= b` on strings: lexicographic by code point, a prefix first. */
  predicate LexLe(a: string, b: string)
  {
    a == [] || (b != [] && (a[0] < b[0] || (a[0] == b[0] && LexLe(a[1..], b[1..]))))
  }

  /** Python's `a < b` on strings. */
  predicate LexLt(a: string, b: string)
  {
    LexLe(a, b) && a != b
  }

  lemma {:induction false} LexLeTotal(a: string, b: string)
    ensures LexLe(a, b) || LexLe(b, a)
  {
    if a != [] && b != [] && a[0] == b[0] {
      LexLeTotal(a[1..], b[1..]);
    }
  }

  lemma {:induction false} LexLeTrans(a: string, b: string, c: string)
    requires LexLe(a, b) && LexLe(b, c)
    ensures LexLe(a, c)
  {
    if a != [] && a[0] == b[0] && b[0] == c[0] {
      LexLeTrans(a[1..], b[1..], c[1..]);
    }
  }

  lemma {:induction false} LexLeAntisym(a: string, b: string)
    requires LexLe(a, b) && LexLe(b, a)
    ensures a == b
  {
    if a != [] {
      LexLeAntisym(a[1..], b[1..]);
      assert a == [a[0]] + a[1..] && b == [b[0]] + b[1..];
    }
  }

  /** Code-point order on texts is a sort key order. */
  lemma LexLeTotalPreorder()
    ensures TotalPreorder(LexLe)
  {
    forall a, b
      ensures LexLe(a, b) || LexLe(b, a)
    {
      LexLeTotal(a, b);
    }
    forall a, b, c | LexLe(a, b) && LexLe(b, c)
      ensures LexLe(a, c)
    {
      LexLeTrans(a, b, c);
    }
  }

  /** A set of strings has exactly one strictly sorted listing (what Python's `sorted` gives for a set). */
  lemma {:induction false} StrictlySortedUnique(a: seq<string>, b: seq<string>)
    requires SortedBy(a, LexLt) && SortedBy(b, LexLt)
    requires forall x :: x in a <==> x in b
    ensures a == b
    decreases |a|
  {
    if a != [] {
      assert a[0] in b;
    }
    if b != [] {
      assert b[0] in a;
    }
    if a != [] && b != [] {
      if a[0] != b[0] {
        assert a[0] in b && b[0] in a;
        var i :| 0 <= i < |b| && b[i] == a[0];
        var j :| 0 <= j < |a| && a[j] == b[0];
        assert LexLe(b[0], a[0]) && LexLe(a[0], b[0]);
        LexLeAntisym(a[0], b[0]);
      }
      forall x
        ensures x in a[1..] <==> x in b[1..]
      {
        if x in a[1..] {
          var i :| 0 <= i < |a[1..]| && a[1..][i] == x;
          assert a[i + 1] == x;
          assert x in b && x != b[0];
        }
        if x in b[1..] {
          var i :| 0 <= i < |b[1..]| && b[1..][i] == x;
          assert b[i + 1] == x;
          assert x in a && x != a[0];
        }
      }
      StrictlySortedUnique(a[1..], b[1..]);
      assert a == [a[0]] + a[1..] && b == [b[0]] + b[1..];
    }
  }

  /**
   * Python's `sorted(set(s))` on texts: each distinct text of `s` once, in strictly
   * increasing code-point order, and by StrictlySortedUnique the only such listing.
   */
  function SortedSet(s: seq<string>): (m: seq<string>)
    ensures forall c :: c in m <==> c in s
    ensures SortedBy(m, LexLt)
  {
    var d := DistinctBy(s, Identity);
    var m := SortBy(d, LexLe);
    forall c | c in s
      ensures c in d
    {
      assert Identity(c) in KeysOf(d, Identity);
      var x :| x in d && Identity(x) == Identity(c);
    }
    LexLeTotalPreorder();
    SortBySorted(d, LexLe);
    assert forall x :: x in m <==> x in d by {
      assert forall x :: x in m <==> x in multiset(m);
    }
    assert NoDuplicates(d) by {
      forall i, j | 0 <= i < j < |d|
        ensures d[i] != d[j]
      {
        assert Identity(d[i]) != Identity(d[j]);
      }
    }
    NoDuplicatesCount(d);
    NoDuplicatesCount(m);
    assert forall i, j :: 0 <= i < j < |m| ==> m[i] != m[j];
    m
  }

  predicate IsDigit(c: char)
  {
    '0' <= c <= '9'
  }

  predicate AllDigits(s: string)
  {
    forall i :: 0 <= i < |s| ==> IsDigit(s[i])
  }

  function DigitChar(d: nat): (c: char)
    requires d < 10
    ensures IsDigit(c)
  {
    (48 + d) as char
  }

  function DigitValue(c: char): (d: nat)
    requires IsDigit(c)
    ensures d < 10
  {
    c as int - 48
  }

  /** The decimal digits of `n`, without leading zeros. */
  function Digits(n: nat): (s: string)
    ensures s != [] && AllDigits(s)
    ensures s[0] == '0' <==> n == 0
  {
    if n < 10 then [DigitChar(n)] else Digits(n / 10) + [DigitChar(n % 10)]
  }

  /** The number a non-empty run of decimal digits denotes (leading zeros allowed). */
  function DigitsValue(s: string): nat
    requires AllDigits(s)
  {
    if s == [] then 0 else 10 * DigitsValue(s[..|s| - 1]) + DigitValue(s[|s| - 1])
  }

  lemma {:induction false} DigitsValueOfDigits(n: nat)
    ensures DigitsValue(Digits(n)) == n
  {
    if n >= 10 {
      var s := Digits(n);
      assert s[..|s| - 1] == Digits(n / 10);
      DigitsValueOfDigits(n / 10);
    }
  }

  /** Python's `str(n)` for an integer. */
  function Decimal(n: int): (s: string)
    ensures s != [] && IsDigit(s[|s| - 1])
    ensures s[0] == '-' <==> n < 0
    ensures n >= 0 ==> AllDigits(s)
    ensures n < 0 ==> |s| > 1 && AllDigits(s[1..]) && s[1] != '0'
    ensures s[0] == '0' <==> n == 0
    ensures n == 0 ==> s == "0"
  {
    if n < 0 then "-" + Digits(-n) else Digits(n)
  }

  /**
   * Python's `int(s)` on a text without surrounding blanks: an optional sign and
   * one or more ASCII digits. None where Python raises ValueError.
   */
  function ParseInt(s: string): (r: Option<int>)
    ensures r.Some? ==> s != [] && (s[0] == '-' || s[0] == '+' || IsDigit(s[0]))
  {
    if |s| > 1 && (s[0] == '-' || s[0] == '+') && AllDigits(s[1..]) then
      var v: int := DigitsValue(s[1..]);
      Some(if s[0] == '-' then -v else v)
    else if s != [] && AllDigits(s) then Some(DigitsValue(s))
    else None
  }

  /** `int(str(n)) == n`. */
  lemma ParseDecimal(n: int)
    ensures ParseInt(Decimal(n)) == Some(n)
  {
    var s := Decimal(n);
    if n < 0 {
      var d := Digits(-n);
      assert s == "-" + d;
      assert s[1..] == d;
      DigitsValueOfDigits(-n);
      assert |s| > 1 && s[0] == '-' && AllDigits(s[1..]);
    } else {
      assert s == Digits(n);
      DigitsValueOfDigits(n);
      assert !(|s| > 1 && (s[0] == '-' || s[0] == '+'));
    }
  }

  /** Python's `s.split("|")[0]`: the longest prefix of `s` without a '|'. */
  function FirstField(s: string): (r: string)
    ensures '|' !in r
    ensures |r| <= |s| && r == s[..|r|]
    ensures |r| == |s| || s[|r|] == '|'
  {
    if s == [] || s[0] == '|' then []
    else
      var rest := FirstField(s[1..]);
      assert [s[0]] + rest == s[..|rest| + 1];
      [s[0]] + rest
  }

  /** The first field of a text is whatever precedes its first '|'. */
  lemma FirstFieldBefore(s: string, k: nat)
    requires k < |s| && s[k] == '|' && '|' !in s[..k]
    ensures FirstField(s) == s[..k]
  {
    var r := FirstField(s);
    assert forall i :: 0 <= i < k ==> s[..k][i] == s[i];
    assert forall i :: 0 <= i < |r| ==> r[i] == s[i];
  }
}
