# IPv4 address, mask and classful-subnet model

This project models the IPv4 part of the `IP` helper library in `ip.js`, a
small collection of pure functions:

- `isIPv4` and `parse` both match text against the IPv4 pattern. `parse` returns the address and its mask. The mask comes from an explicit `/L` suffix or, failing that, from classful inference.
- `getBinaryIp` turns a dotted quad into a 32-bit bitset, and `bitsetToIp` turns a bitset back into a dotted quad.
- The mask algebra is `getMaskByLength`, `getMaskLengthByLowBit`, `isMask` and `getMaskLength`.
- The subnet relations are `isValidMaskForSubnet`, `isIpFromSubnet` and `getNextIp`.
- Classful inference is `getMaskLengthByIp`, `getMaskByIp`, `isClassfulSubnet` and `isInRange`. It covers class A, 0-127 (/8); class B, 128-191 (/16); and class C, 192-223 (/24).

Bitsets are `bv32`, so the library's 32-bit operators are written out exactly:

- `~`, `&`, `^` and `|` act on the 32-bit value.
- A shift count is taken modulo 32 (`ShiftCount`).
- `-x & x` is `(0 - x) & x`.
- `>>>` is a logical right shift.
- The `+ 1` in `getNextIp` wraps modulo 2^32. This is exactly what `bitsetToIp`'s masking and `>>>=` do to the sum.

`Math.log(lowbit) / Math.LN2`, truncated by `~~`, is modelled as the exact position of the single set bit (`FloorLog2`).

Modules, in dependency order:

- `Decimal`: digit strings, `Number(text)` (`Value`) and `String(n)` (`Text`).
- `Strings`: `split` and `join` on a separator character.
- `Grammar`: the IPv4 pattern, `exec` (`Exec`) and `test` (`IsIPv4`).
- `Codec`: `getBinaryIp` and `bitsetToIp`. Each is a method with its loop, proved against a specification function (`Address`, `Render`).
- `Masks`: `getMaskByLength`, `getMaskLengthByLowBit`, `isMask` and `getMaskLength`.
- `Subnets`: `isValidMaskForSubnet`, `isIpFromSubnet` and `getNextIp`.
- `Classful`: `isInRange`, `isClassfulSubnet`, `getMaskLengthByIp` and `getMaskByIp`.
- `Ip`: `parse`.

## Model

| member | source | states |
|---|---|---|
| Decimal.Text | ip.js:145 | the decimal text of a number is canonical (no leading zero) and reads back as that number |
| Decimal.TextOfValue | ip.js:99 | a canonical digit string is the text of its own `Number` value |
| Decimal.TextInjective | ip.js:145 | two numbers have the same text exactly when they are equal |
| Strings.JoinSplit | ip.js:99 | joining the pieces of `split(sep)` with `sep` gives back the original string |
| Strings.SplitJoin | ip.js:145 | splitting a `join(sep)` of pieces free of `sep` gives back the pieces |
| Grammar.OctetTextIsByte | ip.js:2 | an octet alternative of the pattern matches exactly the canonical decimals 0..255 |
| Grammar.PrefixTextIsLength | ip.js:2 | a prefix alternative of the pattern matches exactly the canonical decimals 0..32 |
| Grammar.DottedQuadHasNoSlash | ip.js:2 | an address matched by the pattern contains no '/' |
| Grammar.Exec | ip.js:17 | a successful match has a dotted-quad group 1 and, when group 2 is present, a prefix of 0..32; the input is group 1, followed by "/" and group 2 when that is present (the pattern is anchored) |
| Grammar.ExecComplete | ip.js:2 | every dotted quad, alone or followed by "/" and a valid prefix, matches with exactly those groups |
| Grammar.IsIPv4 | ip.js:58-60 | `ipv4Pattern.test`: holds exactly when `exec` matches; the language it accepts is stated by `Grammar.IPv4Language` |
| Grammar.IPv4Language | ip.js:58-60 | `isIPv4` holds exactly for a dotted quad, optionally followed by "/" and a prefix 0..32 |
| Codec.GetBinaryIp | ip.js:98-108 | the shift-or loop over the four octets yields the address bitset, whose octets, high first, are the four numbers of the text |
| Codec.BitsetToIp | ip.js:137-146 | the mask-and-shift loop with unshift and join yields the rendered dotted quad of the bitset |
| Codec.RenderIsDottedQuad | ip.js:137-146 | every bitset renders to text the IPv4 pattern accepts as an address |
| Codec.RenderOctets | ip.js:137-146 | the rendering is the four octet texts, high first, joined with "." |
| Codec.OctetValuesOfRender | ip.js:137-146 | reading the rendering of a bitset back gives that bitset's four octets |
| Codec.AddressOfRender | ip.js:137-146 | getBinaryIp(bitsetToIp(x)) == x for every 32-bit x |
| Codec.RenderOfAddress | ip.js:98-108 | bitsetToIp(getBinaryIp(ip)) == ip for every dotted quad |
| Codec.AddressInjective | ip.js:98-108 | two dotted quads have the same bitset exactly when they are the same text |
| Codec.OctetsOfAddress | ip.js:98-108 | the octets of the bitset are the numbers of the four parts, in order |
| Codec.FirstOctetIsHigh | ip.js:80 | the first octet of a bitset is `bitset >>> 24` |
| Codec.RenderZero | ip.js:137-146 | the zero bitset renders as "0.0.0.0" |
| Codec.RenderAllOnes | ip.js:137-146 | the all-ones bitset renders as "255.255.255.255" |
| Codec.TextOfByte | ip.js:145 | the text of an octet is an octet alternative of the pattern and reads back as that octet |
| Masks.GetMaskLengthByLowBit | ip.js:127-135 | the length is at most 32 and is 0 exactly for the zero bitset |
| Masks.FloorLog2Below32 | ip.js:132 | the logarithm of a 32-bit value is below 32 |
| Masks.ShortestCover | ip.js:127-135 | getMaskLengthByLowBit(x) is the shortest length whose mask covers every set bit of x (both directions) |
| Masks.GetMaskByLength | ip.js:70-76 | the mask is 0 exactly for length 0; its bits are stated by `Masks.MaskShape`, its isMask property by `Masks.MaskIsMask`, and its read-back by `Masks.LengthOfMask` |
| Masks.MaskShape | ip.js:70-76 | the mask of length L has exactly bits 32-L..31 set, so length 0 gives 0 and length 32 gives all ones |
| Masks.MaskIsMask | ip.js:70-76 | every mask built from a length passes the isMask bit test |
| Masks.LengthOfMask | ip.js:127-135 | getMaskLengthByLowBit(getMaskByLength(L)) == L for L in 0..32 |
| Masks.IsMask | ip.js:32-36 | `!(~binIp & -binIp)` on the address's bitset; characterised by `Masks.MaskIsContiguous`, `Masks.MaskOfLength` and `Masks.IsMaskText` |
| Masks.MaskOfLength | ip.js:32-36 | a bitset passes the isMask test exactly when it is the mask of its own low-bit length |
| Masks.MaskIsContiguous | ip.js:32-36 | a bitset passes the isMask test exactly when its set bits form an unbroken run up to bit 31 |
| Masks.IsMaskText | ip.js:32-36 | isMask(ip) holds exactly when ip is the rendered mask of length getMaskLength(ip) |
| Masks.GetMaskLength | ip.js:54-56 | the length is at most 32 and is 0 exactly for the text "0.0.0.0"; `Masks.MaskTextLength` reads back every mask length |
| Masks.MaskTextLength | ip.js:54-56 | the rendered mask of length L is a dotted quad, is a mask, and has getMaskLength L |
| Subnets.CoveredBits | ip.js:39 | `~mask & subnet` is zero exactly when every set bit of subnet is set in mask |
| Subnets.AgreeingBits | ip.js:47 | `(subnet ^ ip) & mask` is zero exactly when subnet and ip agree on every bit set in mask |
| Subnets.IsValidMaskForSubnet | ip.js:38-40 | `!(~mask & subnet)` on the two bitsets; characterised by `Subnets.ValidMaskBits` and `Subnets.ValidMaskOfLength` |
| Subnets.ValidMaskBits | ip.js:38-40 | a mask is valid for a subnet exactly when it covers every set bit of the subnet's address |
| Subnets.ValidMaskOfLength | ip.js:38-40 | the mask of length L is valid for a subnet exactly when L is at least getMaskLengthByLowBit of the subnet |
| Subnets.IsIpFromSubnet | ip.js:42-48 | `!((subnet ^ ip) & mask)` on the three bitsets; characterised by `Subnets.FromSubnetBits`, `Subnets.FromSubnetIsNetwork` and `Subnets.FromSubnetOfLength` |
| Subnets.FromSubnetBits | ip.js:42-48 | ip is in the subnet exactly when ip and subnet agree on every bit the mask sets |
| Subnets.SubnetContainsItself | ip.js:42-48 | every subnet belongs to itself under any mask |
| Subnets.FromSubnetIsNetwork | ip.js:42-48 | under a mask valid for the subnet, ip belongs exactly when ip & mask is the subnet |
| Subnets.FromSubnetOfLength | ip.js:42-48 | under the mask of length L, ip belongs exactly when its top L bits equal the subnet's |
| Subnets.GetNextIp | ip.js:50-52 | the result is a dotted quad whose bitset is the address's bitset plus one, modulo 2^32; the octet carry is stated by `Subnets.NextIpOctets` |
| Subnets.IncrementFour | ip.js:50-52 | incrementing four octets adds one to the last and carries each 255 into the octet before it, wrapping to zero |
| Subnets.PackIncrement | ip.js:50-52 | adding 1 to a packed bitset increments its octets with carry |
| Subnets.NextIpOctets | ip.js:50-52 | getNextIp gives a dotted quad whose bitset is one more, modulo 2^32, and whose octets are the incremented octets |
| Subnets.NextIpWraps | ip.js:50-52 | the address after 255.255.255.255 is 0.0.0.0 |
| Classful.IsInRange | ip.js:123-125 | `start <= num < end` on octets; the class ranges it tests are disjoint (`Classful.AtMostOneClass`) |
| Classful.IsClassfulSubnet | ip.js:110-121 | the high octet is in the class's range and `x << maskLength` is zero; characterised by `Classful.HostBitsZero` and `Classful.ClassfulSubnetOctets` |
| Classful.NetworkOctets | ip.js:112-114 | a class's mask length is 8 times its number of network octets |
| Classful.HostBitsZero | ip.js:120 | `x << maskLength` is zero exactly when x has no bits outside the class's mask |
| Classful.AtMostOneClass | ip.js:110-121 | no bitset is a classful subnet of two different classes, so the A, B, C order of the tests does not matter |
| Classful.ClassfulSubnetOctets | ip.js:110-121 | a dotted quad is a classful subnet of a class exactly when its first octet is in the class's range and every host octet is 0 |
| Classful.MaskLengthOfBitset | ip.js:82-95 | the if-chain of getMaskLengthByIp on the bitset gives at most 32; its cases are stated by `Classful.ClassLengths`, `Classful.SubnetLengthInClass` and `Classful.SubnetMaskCovers` |
| Classful.GetMaskLengthByIp | ip.js:78-96 | the inferred length is at most 32; by first octet it is stated by `Classful.ClassByFirstOctet` |
| Classful.GetMaskByIp | ip.js:66-68 | the inferred mask passes the isMask test and its getMaskLengthByLowBit is the inferred length |
| Classful.ClassLengths | ip.js:82-95 | outside subnet mode the length is 8, 16 or 24 by the high octet; with high octet 224 or more it is 0 in both modes |
| Classful.SubnetClassLength | ip.js:88-91 | in subnet mode, with the high octet in a class's range, the length is the class's length exactly when the host bits are zero |
| Classful.SubnetLengthInClass | ip.js:88-92 | in subnet mode, with the high octet in a class's range, the length is the class's length when the host bits are zero, and otherwise getMaskLengthByLowBit |
| Classful.SubnetMaskCovers | ip.js:88-92 | in subnet mode, below 224, the inferred mask covers every set bit; when no class matches, the length is getMaskLengthByLowBit |
| Classful.HighOctetIsFirst | ip.js:79-80 | `binIp >>> 24` is the number in the first part of the dotted quad |
| Classful.ClassByFirstOctet | ip.js:78-96 | getMaskLengthByIp by the first part: below 128 gives 8, 128-191 gives 16 and 192-223 gives 24 when not in subnet mode; 224 or more gives 0 in both modes |
| Classful.InferredMaskIsValid | ip.js:66-68 | for a first octet below 224, the mask getMaskByIp infers in subnet mode is valid for the address |
| Ip.Parse | ip.js:16-30 | parse is null exactly when isIPv4 fails; otherwise both fields are dotted quads |
| Ip.ParsePrefixed | ip.js:26-29 | "a/L" parses to a and the rendered mask of length L, which is a mask with getMaskLength L |
| Ip.ParseUnprefixed | ip.js:20-25 | a dotted quad without a suffix parses to itself and the mask getMaskByIp infers, which is a mask of length getMaskLengthByIp |
| Ip.ParseZeroPrefix | ip.js:20-29 | "a/0" takes the suffix branch (the text "0" is truthy) and gives the mask 0.0.0.0 |

## Left out

- `isIPv6` and its pattern (ip.js:3, ip.js:62-64): this is syntax checking for a different address family, with no bit-level operations.
- The export block (ip.js:148-153): this is module packaging, not behaviour.
- Codec.GetBinaryIp: it requires a dotted quad. On other text, getBinaryIp's result is not modelled: the text may have any number of parts, `Number` coerces each part (`""` to 0, `"0x1f"` to 31, non-numeric text to `NaN`, which the shift-or turns into 0), and a value above 255 spills into the neighbouring octet. The exported `isMask`, `isValidMaskForSubnet`, `isIpFromSubnet`, `getNextIp` and `getMaskLength` call it on any string; `IsMask`, `IsValidMaskForSubnet`, `IsIpFromSubnet`, `GetNextIp` and `GetMaskLength` cover them on dotted quads only. Inside `parse`, `getMaskLengthByIp` and `getMaskByIp` only ever receive text the pattern accepted.
- Masks.GetMaskByLength: it requires a length of 0..32, which is all that `parse` and `getMaskByIp` ever pass. Other lengths would rely on JavaScript's shift-count wrapping and are not modelled.
- Masks.GetMaskLengthByLowBit: `Math.log` and `Math.LN2` are floating point. The model uses the exact bit position, which is what the truncated quotient gives for a power of two.
- Classful.IsInRange: its arguments are octets (`bv8`). In the library it only ever receives `binIp >>> 24`, which is always 0..255.
- JavaScript's loose typing is not modelled. Arguments are strings and booleans, and `isSubnet` is a `bool` rather than any truthy value.

## Notes on the design

- The A, B, C order of the class tests in getMaskLengthByIp (ip.js:89-91) has no effect. Each isClassfulSubnet test includes its own range test, and the ranges at ip.js:112-114 are disjoint (`Classful.AtMostOneClass`).
- getMaskByLength never shifts by 32, because length 0 returns 0 through its own branch (ip.js:75). Every other shift count in the library is below 32 (`Masks.MaskShape`).
