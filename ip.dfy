/**
 * parse: match the IPv4 pattern and return the address with its mask,
 * from the /L suffix when there is one and by classful inference when
 * there is not.
 */
module Ip {
  import opened Decimal
  import opened Grammar
  import opened Codec
  import opened Masks
  import opened Classful

  /** The object parse returns: { ip, mask }. */
  datatype Parsed = Parsed(ip: string, mask: string)

  /**
   * parse(ip, isSubnet): null when the pattern does not match; without a
   * suffix the input with getMaskByIp's mask; with a suffix group 1 and
   * the mask of length +group 2. The test is !result[2], and "0" is a
   * non-empty string, so /0 takes the second branch.
   */
  function Parse(ip: string, isSubnet: bool): (r: Option<Parsed>)
    ensures r.None? <==> !IsIPv4(ip)
    ensures r.Some? ==> IsDottedQuad(r.value.ip) && IsDottedQuad(r.value.mask)
  {
    match Exec(ip)
    case None => None
    case Some(m) =>
      match m.prefix
      case None =>
        RenderIsDottedQuad(GetMaskByIp(ip, isSubnet));
        Some(Parsed(ip, Render(GetMaskByIp(ip, isSubnet))))
      case Some(p) =>
        PrefixTextIsLength(p);
        RenderIsDottedQuad(GetMaskByLength(Value(p)));
        Some(Parsed(m.address, Render(GetMaskByLength(Value(p)))))
  }

  /** An address with a /L suffix parses to the address and the mask of length L, whose getMaskLength is L. */
  lemma {:induction false} ParsePrefixed(address: string, prefix: string, isSubnet: bool)
    requires IsDottedQuad(address) && IsPrefixText(prefix)
    ensures Value(prefix) <= 32
    ensures Parse(address + "/" + prefix, isSubnet) ==
      Some(Parsed(address, Render(GetMaskByLength(Value(prefix)))))
    ensures IsMask(Parse(address + "/" + prefix, isSubnet).value.mask)
    ensures GetMaskLength(Parse(address + "/" + prefix, isSubnet).value.mask) == Value(prefix)
  {
    ExecComplete(address, prefix);
    PrefixTextIsLength(prefix);
    MaskTextLength(Value(prefix));
  }

  /** An address without a suffix parses to itself and the rendered mask getMaskByIp infers for it. */
  lemma {:induction false} ParseUnprefixed(address: string, isSubnet: bool)
    requires IsDottedQuad(address)
    ensures Parse(address, isSubnet) == Some(Parsed(address, Render(GetMaskByIp(address, isSubnet))))
    ensures IsMask(Parse(address, isSubnet).value.mask)
    ensures GetMaskLength(Parse(address, isSubnet).value.mask) == GetMaskLengthByIp(address, isSubnet)
  {
    ExecComplete(address, "0");
    MaskTextLength(GetMaskLengthByIp(address, isSubnet));
  }

  /** A /0 suffix is taken as a length, so the mask is 0.0.0.0. */
  lemma {:induction false} ParseZeroPrefix(address: string, isSubnet: bool)
    requires IsDottedQuad(address)
    ensures Parse(address + "/0", isSubnet) == Some(Parsed(address, "0.0.0.0"))
  {
    assert IsPrefixText("0") && Value("0") == 0;
    ParsePrefixed(address, "0", isSubnet);
    assert address + "/0" == address + "/" + "0";
    RenderZero();
  }
}
