/**
 Component references for mesh faces: the face with id `id` on object `obj`
 is named `obj + ".f[" + decimal(id) + "]"`, with the decimal form of a
 signed integer written as `%d` writes it.
 */
module FaceNames {
  import opened ShellSpec

  datatype Option<T> = None | Some(value: T)

  predicate IsDigit(c: char)
  {
    '0' <= c <= '9'
  }

  predicate AllDigits(s: string)
  {
    forall c :: c in s ==> IsDigit(c)
  }

  function DigitChar(d: nat): (c: char)
    requires d < 10
    ensures IsDigit(c) && c as int - '0' as int == d
  {
    (d + '0' as int) as char
  }

  /**
   The form `%d` gives a non-negative value: at least one digit, and no
   leading zero unless the whole string is "0".
   */
  predicate Canonical(s: string)
  {
    s != [] && AllDigits(s) && (s == "0" || s[0] != '0')
  }

  /** The shortest decimal digit string of `n`. */
  function DecimalDigits(n: nat): (s: string)
    ensures Canonical(s)
    ensures s == "0" <==> n == 0
  {
    if n < 10 then [DigitChar(n)] else DecimalDigits(n / 10) + [DigitChar(n % 10)]
  }

  /** The value of a digit string, read most significant digit first. */
  function DigitsValue(s: string): nat
    requires AllDigits(s)
  {
    if s == [] then 0
    else
      var last := s[|s| - 1];
      assert last in s;
      10 * DigitsValue(s[..|s| - 1]) + (last as int - '0' as int)
  }

  /** `%d` of an integer: a minus sign before the digits of a negative value. */
  function FormatInt(i: int): (r: string)
    ensures r != [] && (r[0] == '-' <==> i < 0)
    ensures i >= 0 ==> Canonical(r)
    ensures i < 0 ==> Canonical(r[1..]) && r[1..] != "0"
  {
    var digits := DecimalDigits(if i < 0 then -i else i);
    assert digits[0] in digits;
    if i < 0 then "-" + digits else digits
  }

  /** The component reference of face `id`: the object, ".f[", `%d` of the id, "]". */
  function FaceName(obj: string, id: int): (r: string)
    ensures |r| == |obj| + |FormatInt(id)| + 4
    ensures r[..|obj|] == obj && r[|obj|..|obj| + 3] == ".f[" && r[|r| - 1] == ']'
    ensures r[|obj| + 3..|r| - 1] == FormatInt(id)
  {
    obj + ".f[" + FormatInt(id) + "]"
  }

  /** One shell's face ids as face names, in the same order. */
  function FormatShell(obj: string, ids: seq<int>): (r: seq<string>)
    ensures |r| == |ids|
    ensures forall m :: 0 <= m < |ids| ==> r[m] == FaceName(obj, ids[m])
  {
    seq(|ids|, m requires 0 <= m < |ids| => FaceName(obj, ids[m]))
  }

  /** Every shell's face ids as face names: same shells, same lengths, same order. */
  function FormatShells(obj: string, shells: seq<seq<int>>): (r: seq<seq<string>>)
    ensures |r| == |shells|
    ensures forall k :: 0 <= k < |shells| ==> |r[k]| == |shells[k]|
    ensures forall k, m :: 0 <= k < |shells| && 0 <= m < |shells[k]| ==> r[k][m] == FaceName(obj, shells[k][m])
  {
    if shells == [] then []
    else
      var init := FormatShells(obj, shells[..|shells| - 1]);
      init + [FormatShell(obj, shells[|shells| - 1])]
  }

  // ---------------------------------------------------------------------------
  // Reading a face name back

  function ParseInt(s: string): Option<int>
  {
    if s != [] && s[0] == '-' then
      if |s| > 1 && AllDigits(s[1..]) then Some(-(DigitsValue(s[1..]) as int)) else None
    else if s != [] && AllDigits(s) then Some(DigitsValue(s))
    else None
  }

  /** The face id named by `name` on object `obj`, if `name` is a face reference of `obj`. */
  function ParseFaceName(obj: string, name: string): Option<int>
  {
    var prefix := obj + ".f[";
    if |name| < |prefix| + 1 || name[..|prefix|] != prefix || name[|name| - 1] != ']' then None
    else ParseInt(name[|prefix|..|name| - 1])
  }

  lemma {:induction false} DigitsRoundTrip(n: nat)
    ensures DigitsValue(DecimalDigits(n)) == n
  {
    if n >= 10 {
      var s := DecimalDigits(n);
      var init := DecimalDigits(n / 10);
      assert s == init + [DigitChar(n % 10)];
      assert s[..|s| - 1] == init;
      DigitsRoundTrip(n / 10);
    }
  }

  /** A digit string with no leading zero has a value of at least 1. */
  lemma {:induction false} LeadingDigitPositive(s: string)
    requires s != [] && AllDigits(s) && s[0] != '0'
    ensures DigitsValue(s) >= 1
  {
    if |s| > 1 {
      var init := s[..|s| - 1];
      assert init[0] == s[0];
      assert forall c :: c in init ==> c in s;
      LeadingDigitPositive(init);
      assert s[|s| - 1] in s;
    }
  }

  /**
   `DecimalDigits` is the only canonical form: a canonical digit string is
   exactly the digits of its own value.
   */
  lemma {:induction false} CanonicalDigitsUnique(s: string)
    requires Canonical(s)
    ensures DecimalDigits(DigitsValue(s)) == s
  {
    var last := s[|s| - 1];
    assert last in s;
    var d := last as int - '0' as int;
    if |s| == 1 {
      assert s == [last];
      assert DigitChar(d) == last;
    } else {
      var init := s[..|s| - 1];
      assert init[0] == s[0];
      assert forall c :: c in init ==> c in s;
      LeadingDigitPositive(init);
      CanonicalDigitsUnique(init);
      var n := DigitsValue(s);
      assert n == 10 * DigitsValue(init) + d;
      assert n / 10 == DigitsValue(init) && n % 10 == d;
      assert DigitChar(d) == last;
      assert s == init + [last];
    }
  }

  lemma FormatIntRoundTrip(i: int)
    ensures ParseInt(FormatInt(i)) == Some(i)
  {
    var d := DecimalDigits(if i < 0 then -i else i);
    DigitsRoundTrip(if i < 0 then -i else i);
    assert d[0] in d;
    if i < 0 {
      var s := "-" + d;
      assert s[0] == '-' && |s| > 1;
      assert s[1..] == d;
      assert ParseInt(s) == Some(-(DigitsValue(d) as int));
    } else {
      assert d[0] != '-';
      assert ParseInt(d) == Some(DigitsValue(d) as int);
    }
  }

  /** A face name is read back as the id it was made from. */
  lemma FaceNameRoundTrip(obj: string, id: int)
    ensures ParseFaceName(obj, FaceName(obj, id)) == Some(id)
  {
    var prefix := obj + ".f[";
    var name := FaceName(obj, id);
    assert name == prefix + FormatInt(id) + "]";
    assert name[..|prefix|] == prefix;
    assert name[|prefix|..|name| - 1] == FormatInt(id);
    FormatIntRoundTrip(id);
  }

  /** Different faces of one object get different names. */
  lemma FaceNameInjective(obj: string, a: int, b: int)
    requires FaceName(obj, a) == FaceName(obj, b)
    ensures a == b
  {
    FaceNameRoundTrip(obj, a);
    FaceNameRoundTrip(obj, b);
  }

  /** Naming commutes with flattening: the names, in order, are the named ids in order. */
  lemma {:induction false} FlattenFormat(obj: string, shells: seq<seq<int>>)
    ensures Flatten(FormatShells(obj, shells)) == FormatShell(obj, Flatten(shells))
  {
    if shells != [] {
      var m := |shells| - 1;
      var r := FormatShells(obj, shells);
      assert r[..m] == FormatShells(obj, shells[..m]);
      FlattenFormat(obj, shells[..m]);
      assert FormatShell(obj, Flatten(shells[..m]) + shells[m])
        == FormatShell(obj, Flatten(shells[..m])) + FormatShell(obj, shells[m]);
    }
  }

  /** Distinct face ids give distinct face names, across all shells. */
  lemma FormatKeepsDistinct(obj: string, shells: seq<seq<int>>)
    requires Distinct(Flatten(shells))
    ensures Distinct(Flatten(FormatShells(obj, shells)))
  {
    FlattenFormat(obj, shells);
    var ids := Flatten(shells);
    forall a, b | 0 <= a < b < |ids|
      ensures FaceName(obj, ids[a]) != FaceName(obj, ids[b])
    {
      if FaceName(obj, ids[a]) == FaceName(obj, ids[b]) {
        FaceNameInjective(obj, ids[a], ids[b]);
      }
    }
  }
}
