/**
 * The IPv4 pattern of ip.js, as a recogniser over strings: four dotted
 * decimal octets, optionally followed by '/' and a prefix length.
 * Group 1 of the pattern is the address, group 2 the prefix length.
 */
module Grammar {
  import opened Decimal
  import opened Strings

  datatype Option<T> = None | Some(value: T)

  /** One octet of the pattern: [0-9] | [1-9][0-9] | 1[0-9]{2} | 2[0-4][0-9] | 25[0-5]. */
  predicate IsOctetText(s: string) {
    || (|s| == 1 && IsDigit(s[0]))
    || (|s| == 2 && '1' <= s[0] <= '9' && IsDigit(s[1]))
    || (|s| == 3 && s[0] == '1' && IsDigit(s[1]) && IsDigit(s[2]))
    || (|s| == 3 && s[0] == '2' && '0' <= s[1] <= '4' && IsDigit(s[2]))
    || (|s| == 3 && s[0] == '2' && s[1] == '5' && '0' <= s[2] <= '5')
  }

  /** The prefix length of the pattern: [0-9] | [1-2][0-9] | 3[0-2]. */
  predicate IsPrefixText(s: string) {
    || (|s| == 1 && IsDigit(s[0]))
    || (|s| == 2 && '1' <= s[0] <= '2' && IsDigit(s[1]))
    || (|s| == 2 && s[0] == '3' && '0' <= s[1] <= '2')
  }

  /** Four octets separated by dots: group 1 of the pattern. */
  predicate IsDottedQuad(s: string) {
    var parts := Split(s, '.');
    |parts| == 4 && forall i :: 0 <= i < 4 ==> IsOctetText(parts[i])
  }

  /** What the pattern captures: the address and, when present, the prefix length. */
  datatype Match = Match(address: string, prefix: Option<string>)

  /**
   * ipv4Pattern.exec(s); the pattern is anchored at both ends, so a match
   * is the whole input: group 1, then '/' and group 2 when group 2 is present.
   */
  function Exec(s: string): (r: Option<Match>)
    ensures r.Some? ==> IsDottedQuad(r.value.address)
    ensures r.Some? && r.value.prefix.None? ==> s == r.value.address
    ensures r.Some? && r.value.prefix.Some? ==>
      IsPrefixText(r.value.prefix.value) && s == r.value.address + "/" + r.value.prefix.value
  {
    JoinSplit(s, '/');
    var halves := Split(s, '/');
    if |halves| == 1 && IsDottedQuad(halves[0]) then
      Some(Match(halves[0], None))
    else if |halves| == 2 && IsDottedQuad(halves[0]) && IsPrefixText(halves[1]) then
      Some(Match(halves[0], Some(halves[1])))
    else
      None
  }

  /** isIPv4: ipv4Pattern.test(s). */
  predicate IsIPv4(s: string) {
    Exec(s).Some?
  }

  lemma DigitsOfThree(s: string)
    requires |s| == 3 && IsDigits(s)
    ensures Value(s) == 100 * DigitValue(s[0]) + 10 * DigitValue(s[1]) + DigitValue(s[2])
  {
    assert s[..2][..1] == s[..1];
    assert s[..1][..0] == [];
    assert Value(s[..1]) == DigitValue(s[0]);
    assert Value(s[..2]) == 10 * DigitValue(s[0]) + DigitValue(s[1]);
  }

  lemma DigitsOfTwo(s: string)
    requires |s| == 2 && IsDigits(s)
    ensures Value(s) == 10 * DigitValue(s[0]) + DigitValue(s[1])
  {
    assert s[..1][..0] == [];
    assert Value(s[..1]) == DigitValue(s[0]);
  }

  lemma DigitsOfOne(s: string)
    requires |s| == 1 && IsDigits(s)
    ensures Value(s) == DigitValue(s[0])
  {
    assert s[..0] == [];
  }

  /** The octet alternatives accept exactly the canonical numerals of 0 to 255. */
  lemma {:induction false} OctetTextIsByte(s: string)
    ensures IsOctetText(s) <==> IsCanonical(s) && Value(s) <= 255
  {
    if IsCanonical(s) {
      if |s| >= 4 {
        ValueLowerBound(s);
        assert Pow10(|s| - 1) >= 1000 by { PowerAtLeast(|s| - 1, 3); }
      } else if |s| == 3 {
        DigitsOfThree(s);
      } else if |s| == 2 {
        DigitsOfTwo(s);
      } else {
        DigitsOfOne(s);
      }
    }
  }

  /** The prefix alternatives accept exactly the canonical numerals of 0 to 32. */
  lemma {:induction false} PrefixTextIsLength(s: string)
    ensures IsPrefixText(s) <==> IsCanonical(s) && Value(s) <= 32
  {
    if IsCanonical(s) {
      if |s| >= 3 {
        ValueLowerBound(s);
        assert Pow10(|s| - 1) >= 100 by { PowerAtLeast(|s| - 1, 2); }
      } else if |s| == 2 {
        DigitsOfTwo(s);
      } else {
        DigitsOfOne(s);
      }
    }
  }

  lemma {:induction false} PowerAtLeast(k: nat, j: nat)
    requires j <= k
    ensures Pow10(k) >= Pow10(j)
    decreases k
  {
    if j < k {
      PowerAtLeast(k - 1, j);
    }
  }

  /** A dotted quad contains neither a slash nor anything but digits and dots. */
  lemma DottedQuadHasNoSlash(s: string)
    requires IsDottedQuad(s)
    ensures '/' !in s
  {
    var parts := Split(s, '.');
    forall i | 0 <= i < |parts|
      ensures '/' !in parts[i]
    {
      assert IsOctetText(parts[i]);
    }
    JoinSplit(s, '.');
    NotInJoin(parts, '.', '/');
  }

  /** Every dotted quad is accepted, alone or with any prefix length. */
  lemma ExecComplete(a: string, p: string)
    requires IsDottedQuad(a)
    ensures Exec(a) == Some(Match(a, None))
    ensures IsPrefixText(p) ==> Exec(a + "/" + p) == Some(Match(a, Some(p)))
  {
    DottedQuadHasNoSlash(a);
    SplitWord(a, '/');
    if IsPrefixText(p) {
      assert '/' !in p;
      SplitWord(p, '/');
      SplitCons(a, '/', p);
    }
  }

  /**
   * isIPv4 accepts exactly a dotted quad, or a dotted quad followed by a
   * slash and a prefix length.
   */
  lemma {:induction false} IPv4Language(s: string)
    ensures IsIPv4(s) <==>
      IsDottedQuad(s) || exists a, p :: IsDottedQuad(a) && IsPrefixText(p) && s == a + "/" + p
  {
    if IsDottedQuad(s) {
      ExecComplete(s, "0");
    } else if exists a, p :: IsDottedQuad(a) && IsPrefixText(p) && s == a + "/" + p {
      var a, p :| IsDottedQuad(a) && IsPrefixText(p) && s == a + "/" + p;
      ExecComplete(a, p);
    }
  }
}
