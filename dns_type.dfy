/** DnsType: the record types the DNS helpers know, and their case-insensitive parser. */
module Dns {
  import opened Results
  import opened JavaString

  /** The enum constants, in declaration order. */
  datatype DnsType =
    | A | AAAA | CNAME | MX | NS | TXT | SOA | PTR
    | RP | LOC | SIG | SPF | SRV | TSIG | TKEY | CERT
    | KEY | DS | DNSKEY | NSEC | NSEC3 | NSEC3PARAM | RRSIG | IPSECKEY | DLV
    | DNAME | DLCID | HIP | NAPTR | SSHFP | TLSA
    | IXFR | AXFR | OPT

  /** The number of constants. */
  const Count: nat := 34

  /** Enum.name(): the constant's identifier. */
  function Name(t: DnsType): string {
    match t
    case A => "A" case AAAA => "AAAA" case CNAME => "CNAME" case MX => "MX"
    case NS => "NS" case TXT => "TXT" case SOA => "SOA" case PTR => "PTR"
    case RP => "RP" case LOC => "LOC" case SIG => "SIG" case SPF => "SPF"
    case SRV => "SRV" case TSIG => "TSIG" case TKEY => "TKEY" case CERT => "CERT"
    case KEY => "KEY" case DS => "DS" case DNSKEY => "DNSKEY" case NSEC => "NSEC"
    case NSEC3 => "NSEC3" case NSEC3PARAM => "NSEC3PARAM" case RRSIG => "RRSIG" case IPSECKEY => "IPSECKEY"
    case DLV => "DLV" case DNAME => "DNAME" case DLCID => "DLCID" case HIP => "HIP"
    case NAPTR => "NAPTR" case SSHFP => "SSHFP" case TLSA => "TLSA" case IXFR => "IXFR"
    case AXFR => "AXFR" case OPT => "OPT"
  }

  /** Enum.ordinal(): the position of the constant in the declaration. */
  function Ordinal(t: DnsType): (i: nat)
    ensures i < Count
  {
    match t
    case A => 0 case AAAA => 1 case CNAME => 2 case MX => 3 case NS => 4 case TXT => 5
    case SOA => 6 case PTR => 7 case RP => 8 case LOC => 9 case SIG => 10 case SPF => 11
    case SRV => 12 case TSIG => 13 case TKEY => 14 case CERT => 15 case KEY => 16 case DS => 17
    case DNSKEY => 18 case NSEC => 19 case NSEC3 => 20 case NSEC3PARAM => 21 case RRSIG => 22 case IPSECKEY => 23
    case DLV => 24 case DNAME => 25 case DLCID => 26 case HIP => 27 case NAPTR => 28 case SSHFP => 29
    case TLSA => 30 case IXFR => 31 case AXFR => 32 case OPT => 33
  }

  /** The constant at position `i` of the declaration. */
  function FromOrdinal(i: nat): DnsType
    requires i < Count
  {
    match i
    case 0 => A case 1 => AAAA case 2 => CNAME case 3 => MX case 4 => NS case 5 => TXT
    case 6 => SOA case 7 => PTR case 8 => RP case 9 => LOC case 10 => SIG case 11 => SPF
    case 12 => SRV case 13 => TSIG case 14 => TKEY case 15 => CERT case 16 => KEY case 17 => DS
    case 18 => DNSKEY case 19 => NSEC case 20 => NSEC3 case 21 => NSEC3PARAM case 22 => RRSIG case 23 => IPSECKEY
    case 24 => DLV case 25 => DNAME case 26 => DLCID case 27 => HIP case 28 => NAPTR case 29 => SSHFP
    case 30 => TLSA case 31 => IXFR case 32 => AXFR case _ => OPT
  }

  /** Enum.values(): every constant, in declaration order. */
  function Values(): (ts: seq<DnsType>)
    ensures |ts| == Count
    ensures forall i :: 0 <= i < Count ==> Ordinal(ts[i]) == i
  {
    OrdinalOfFromOrdinal();
    seq(Count, i requires 0 <= i < Count => FromOrdinal(i))
  }

  lemma OrdinalOfFromOrdinal()
    ensures forall i :: 0 <= i < Count ==> Ordinal(FromOrdinal(i)) == i
  {
  }

  /**
   * Enum.valueOf: the constant whose name is exactly `s`, or None (Java
   * throws IllegalArgumentException) when no constant is named `s`.
   */
  function ValueOf(s: string): Option<DnsType> {
    match s
    case "A" => Some(A) case "AAAA" => Some(AAAA) case "CNAME" => Some(CNAME) case "MX" => Some(MX)
    case "NS" => Some(NS) case "TXT" => Some(TXT) case "SOA" => Some(SOA) case "PTR" => Some(PTR)
    case "RP" => Some(RP) case "LOC" => Some(LOC) case "SIG" => Some(SIG) case "SPF" => Some(SPF)
    case "SRV" => Some(SRV) case "TSIG" => Some(TSIG) case "TKEY" => Some(TKEY) case "CERT" => Some(CERT)
    case "KEY" => Some(KEY) case "DS" => Some(DS) case "DNSKEY" => Some(DNSKEY) case "NSEC" => Some(NSEC)
    case "NSEC3" => Some(NSEC3) case "NSEC3PARAM" => Some(NSEC3PARAM) case "RRSIG" => Some(RRSIG) case "IPSECKEY" => Some(IPSECKEY)
    case "DLV" => Some(DLV) case "DNAME" => Some(DNAME) case "DLCID" => Some(DLCID) case "HIP" => Some(HIP)
    case "NAPTR" => Some(NAPTR) case "SSHFP" => Some(SSHFP) case "TLSA" => Some(TLSA) case "IXFR" => Some(IXFR)
    case "AXFR" => Some(AXFR) case "OPT" => Some(OPT)
    case _ => None
  }

  /** valueOf returns only the constant with the given name. */
  lemma ValueOfFound(s: string)
    requires ValueOf(s).Some?
    ensures Name(ValueOf(s).value) == s
  {
  }

  /** valueOf fails only for a string that is no constant's name. */
  lemma ValueOfMissing(s: string)
    requires ValueOf(s).None?
    ensures forall t: DnsType :: Name(t) != s
  {
  }

  /** create(value) = valueOf(value.toUpperCase()); a null value throws. */
  function Create(value: Option<string>): (r: Result<DnsType, JavaException>)
    ensures value.None? ==> r == Failure(NullPointer(None))
    ensures value.Some? && r.Success? ==> Name(r.value) == ToUpper(value.value)
    ensures value.Some? && r.Failure? ==>
      (forall t: DnsType :: Name(t) != ToUpper(value.value)) &&
      r.error == IllegalArgument("No enum constant org.cobbzilla.util.dns.DnsType." + ToUpper(value.value))
  {
    if value.None? then Failure(NullPointer(None))
    else
      var name := ToUpper(value.value);
      if ValueOf(name).None? then
        ValueOfMissing(name);
        Failure(IllegalArgument("No enum constant org.cobbzilla.util.dns.DnsType." + name))
      else
        ValueOfFound(name);
        Success(ValueOf(name).value)
  }

  // ---------------------------------------------------------------------

  /** valueOf finds every constant by its name. */
  lemma ValueOfName(t: DnsType)
    ensures ValueOf(Name(t)) == Some(t)
  {
  }

  /** No two constants share a name. */
  lemma NameInjective(t: DnsType, u: DnsType)
    requires Name(t) == Name(u)
    ensures t == u
  {
    ValueOfName(t);
    ValueOfName(u);
  }

  /** There are exactly 34 constants, each listed once, and their names are pairwise distinct. */
  lemma ThirtyFourDistinct()
    ensures |Values()| == 34
    ensures forall t: DnsType :: Values()[Ordinal(t)] == t
    ensures forall i, j :: 0 <= i < j < Count ==> Name(Values()[i]) != Name(Values()[j])
  {
    forall t: DnsType ensures Values()[Ordinal(t)] == t {
      var u := Values()[Ordinal(t)];
      assert Ordinal(u) == Ordinal(t);
      OrdinalInjective(t, u);
    }
    forall i, j | 0 <= i < j < Count ensures Name(Values()[i]) != Name(Values()[j]) {
      if Name(Values()[i]) == Name(Values()[j]) {
        NameInjective(Values()[i], Values()[j]);
      }
    }
  }

  lemma OrdinalInjective(t: DnsType, u: DnsType)
    requires Ordinal(t) == Ordinal(u)
    ensures t == u
  {
    FromOrdinalOfOrdinal(t);
    FromOrdinalOfOrdinal(u);
  }

  /** Every constant is found again at its own position. */
  lemma FromOrdinalOfOrdinal(t: DnsType)
    ensures FromOrdinal(Ordinal(t)) == t
  {
  }

  /** create is the inverse of name(). */
  lemma CreateName(t: DnsType)
    ensures Create(Some(Name(t))) == Success(t)
  {
    NameIsUpperCase(t);
    assert ToUpper(Name(t)) == Name(t);
    ValueOfName(t);
  }

  /** Constant names hold no lower-case letter. */
  lemma NameIsUpperCase(t: DnsType)
    ensures forall i :: 0 <= i < |Name(t)| ==> !('a' <= Name(t)[i] <= 'z')
  {
  }

  /** create ignores ASCII case: a string and its upper-case form parse alike. */
  lemma CreateIgnoresCase(s: string)
    ensures Create(Some(s)) == Create(Some(ToUpper(s)))
  {
    ToUpperIdempotent(s);
  }

  lemma CreateLowerCase()
    ensures Create(Some("mx")) == Success(MX)
  {
    assert ToUpper("mx") == "MX";
    ValueOfName(MX);
  }

  lemma CreateMixedCase()
    ensures Create(Some("Txt")) == Success(TXT)
  {
    assert ToUpper("Txt") == "TXT";
    ValueOfName(TXT);
  }

  lemma CreateUnknown()
    ensures Create(Some("mx.")).Failure?
  {
    assert ToUpper("mx.") == "MX.";
  }
}
