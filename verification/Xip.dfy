/** Names that encode an IPv4 address, and zone membership on presentation text (src/xip.rs). */
module Xip {
  import opened Wrappers
  import opened Text
  import opened Names

  type Octet = n: nat | n < 256

  datatype Ipv4 = Ipv4(a: Octet, b: Octet, c: Octet, d: Octet)

  predicate IsOurDomain(hostname: string, domain: string) {
    Lower(hostname) == Lower(domain) || EndsWith(Lower(hostname), "." + Lower(domain))
  }

  // ---- Unsigned decimal text -------------------------------------------------------------

  predicate IsDigit(c: char) {
    '0' <= c <= '9'
  }

  function DigitValue(c: char): nat
    requires IsDigit(c)
  {
    c as int - '0' as int
  }

  predicate AllDigits(s: string) {
    forall i | 0 <= i < |s| :: IsDigit(s[i])
  }

  function DecimalValue(s: string): nat
    requires AllDigits(s)
  {
    if s == "" then 0 else DecimalValue(s[..|s| - 1]) * 10 + DigitValue(s[|s| - 1])
  }

  /** Parsing to `u16`: an optional plus sign, at least one digit, and no overflow. */
  function ParseU16(s: string): Option<nat> {
    var body := if s != "" && s[0] == '+' then s[1..] else s;
    if body == "" || !AllDigits(body) || DecimalValue(body) > 65535 then None else Some(DecimalValue(body))
  }

  function ParseOctet(s: string): Option<Octet> {
    match ParseU16(s)
    case None => None
    case Some(v) => if v > 255 then None else Some(v)
  }

  // ---- Four octets -----------------------------------------------------------------------

  /** What each part is worth as an octet. */
  function Octets(parts: seq<string>): seq<Option<Octet>> {
    seq(|parts|, i requires 0 <= i < |parts| => ParseOctet(parts[i]))
  }

  /** The address written by the four parts that start at `i`, when each of them is an octet. */
  function Window(octets: seq<Option<Octet>>, i: nat): Option<Ipv4>
    requires i + 4 <= |octets|
  {
    if octets[i].Some? && octets[i + 1].Some? && octets[i + 2].Some? && octets[i + 3].Some?
    then Some(Ipv4(octets[i].value, octets[i + 1].value, octets[i + 2].value, octets[i + 3].value))
    else None
  }

  method ParseOctets(octets: seq<string>) returns (r: Option<Ipv4>)
    requires |octets| == 4
    ensures r == Window(Octets(octets), 0)
  {
    var b := new Octet[4](_ => 0);
    for i := 0 to |octets|
      invariant forall k | 0 <= k < i :: Octets(octets)[k] == Some(b[k])
    {
      var val := ParseU16(octets[i]);
      if val.None? {
        return None;
      }
      if val.value > 255 {
        return None;
      }
      b[i] := val.value;
    }
    return Some(Ipv4(b[0], b[1], b[2], b[3]));
  }

  // ---- The scan from the right -----------------------------------------------------------

  /** `ip` is written by the window at `i`, and no window further right is an address. */
  ghost predicate RightmostAt(octets: seq<Option<Octet>>, i: nat, ip: Ipv4) {
    && i + 4 <= |octets|
    && Window(octets, i) == Some(ip)
    && forall j: nat | i < j && j + 4 <= |octets| :: Window(octets, j) == None
  }

  ghost predicate NoWindow(octets: seq<Option<Octet>>) {
    forall j: nat | j + 4 <= |octets| :: Window(octets, j) == None
  }

  function LastAddress(octets: seq<Option<Octet>>): Option<Ipv4> {
    if |octets| < 4 then None
    else
      var last := Window(octets, |octets| - 4);
      if last.Some? then last else LastAddress(octets[..|octets| - 1])
  }

  /** The specification of `ParseXipIp`, for the callers that are functions. */
  function XipAddress(hostname: string, domain: string): Option<Ipv4> {
    match StripSuffix(Lower(hostname), "." + Lower(domain))
    case None => None
    case Some(prefix) => LastAddress(Octets(Split(prefix, '-')))
  }

  method ParseXipIp(hostname: string, domain: string) returns (r: Option<Ipv4>)
    ensures r == XipAddress(hostname, domain)
  {
    var host, zone := Lower(hostname), Lower(domain);
    var prefix := StripSuffix(host, "." + zone);
    if prefix.None? {
      return None;
    }
    var parts := Split(prefix.value, '-');
    if |parts| < 4 {
      return None;
    }
    ghost var octets := Octets(parts);
    assert octets[..|parts|] == octets;
    for i := |parts| - 3 downto 0
      invariant LastAddress(octets) == LastAddress(octets[..i + 3])
    {
      LastAddressStep(octets, i);
      WindowOfSlice(parts, i);
      var ip := ParseOctets(parts[i..i + 4]);
      if ip.Some? {
        return ip;
      }
    }
    return None;
  }

  lemma {:induction false} LastAddressStep(octets: seq<Option<Octet>>, i: nat)
    requires i + 4 <= |octets|
    ensures LastAddress(octets[..i + 4])
         == if Window(octets, i).Some? then Window(octets, i) else LastAddress(octets[..i + 3])
  {
    var front := octets[..i + 4];
    assert front[..i + 3] == octets[..i + 3];
    assert Window(front, i) == Window(octets, i);
  }

  lemma {:induction false} WindowOfSlice(parts: seq<string>, i: nat)
    requires i + 4 <= |parts|
    ensures Window(Octets(parts[i..i + 4]), 0) == Window(Octets(parts), i)
  {
    var slice := parts[i..i + 4];
    assert forall k | 0 <= k < 4 :: slice[k] == parts[i + k];
  }

  lemma {:induction false} LastAddressIndex(octets: seq<Option<Octet>>) returns (i: int)
    ensures LastAddress(octets) == None ==> i == -1 && NoWindow(octets)
    ensures LastAddress(octets).Some? ==> i >= 0 && RightmostAt(octets, i, LastAddress(octets).value)
  {
    i := -1;
    if |octets| >= 4 {
      var n, shorter := |octets|, octets[..|octets| - 1];
      if Window(octets, n - 4).Some? {
        i := n - 4;
      } else {
        i := LastAddressIndex(shorter);
        assert forall j: nat | j + 4 < n :: Window(octets, j) == Window(shorter, j);
      }
    }
  }

  lemma {:induction false} LastFour(front: seq<Option<Octet>>, back: seq<Option<Octet>>)
    requires |back| == 4 && Window(back, 0).Some?
    ensures LastAddress(front + back) == Window(back, 0)
  {
  }

  lemma {:induction false} TrailingNone(front: seq<Option<Octet>>)
    ensures LastAddress(front + [None]) == LastAddress(front)
  {
    assert (front + [None])[..|front|] == front;
  }

  /** The scan finds an address iff some window is one, and then it is the rightmost. */
  lemma {:induction false} LastAddressIsRightmost(octets: seq<Option<Octet>>, ip: Ipv4)
    ensures LastAddress(octets) == Some(ip) <==> exists i: nat :: RightmostAt(octets, i, ip)
    ensures LastAddress(octets) == None <==> NoWindow(octets)
  {
    var found := LastAddressIndex(octets);
    if i: nat :| RightmostAt(octets, i, ip) {
      assert Window(octets, i).Some?;
    }
  }

  // ---- What the parser promises ----------------------------------------------------------

  function Print(n: nat): string
  {
    if n < 10 then [('0' as int + n) as char] else Print(n / 10) + [('0' as int + n % 10) as char]
  }

  function PrintedParts(ip: Ipv4): seq<string> {
    [Print(ip.a), Print(ip.b), Print(ip.c), Print(ip.d)]
  }

  function PrintIpv4(ip: Ipv4): string {
    Join(PrintedParts(ip), '-')
  }

  lemma {:induction false} PrintIsDecimal(n: nat)
    ensures Print(n) != "" && AllDigits(Print(n)) && DecimalValue(Print(n)) == n
  {
    if n >= 10 {
      PrintIsDecimal(n / 10);
      var s := Print(n);
      assert s[..|s| - 1] == Print(n / 10);
    } else {
      assert Print(n)[..0] == "";
    }
  }

  lemma {:induction false} PrintedOctet(n: Octet)
    ensures ParseOctet(Print(n)) == Some(n)
    ensures Lower(Print(n)) == Print(n)
    ensures '-' !in Print(n)
  {
    PrintIsDecimal(n);
    assert Print(n)[0] != '+';
  }

  /** The text in front of the zone suffix, found again whatever the letter case. */
  lemma {:induction false} StripZone(hostname: string, prefix: string, domain: string)
    requires Lower(hostname) == Lower(prefix + "." + domain)
    ensures StripSuffix(Lower(hostname), "." + Lower(domain)) == Some(Lower(prefix))
  {
    assert prefix + "." + domain == prefix + ("." + domain);
    LowerConcat(prefix, "." + domain);
    LowerConcat(".", domain);
    var host := Lower(prefix) + ("." + Lower(domain));
    assert host[|host| - |"." + Lower(domain)|..] == "." + Lower(domain);
    assert host[..|host| - |"." + Lower(domain)|] == Lower(prefix);
  }

  lemma {:induction false} PrintedIpv4(ip: Ipv4)
    ensures Lower(PrintIpv4(ip)) == PrintIpv4(ip)
    ensures var octets := Octets(Split(PrintIpv4(ip), '-')); |octets| == 4 && Window(octets, 0) == Some(ip)
  {
    PrintedOctet(ip.a);
    PrintedOctet(ip.b);
    PrintedOctet(ip.c);
    PrintedOctet(ip.d);
    var parts := [Print(ip.a), Print(ip.b), Print(ip.c), Print(ip.d)];
    SplitJoin(parts, '-');
    forall i | 0 <= i < |PrintIpv4(ip)|
      ensures LowerChar(PrintIpv4(ip)[i]) == PrintIpv4(ip)[i]
    {
      JoinedFold(parts);
    }
  }

  lemma {:induction false} JoinedFold(parts: seq<string>)
    requires parts != [] && forall p | p in parts :: Lower(p) == p
    ensures Lower(Join(parts, '-')) == Join(parts, '-')
  {
    if |parts| > 1 {
      JoinedFold(parts[1..]);
      LowerConcat(parts[0], "-");
      LowerConcat(parts[0] + "-", Join(parts[1..], '-'));
    }
  }

  /** A bare printed address in front of the zone parses back to that address, in any letter case. */
  lemma {:induction false} PrintThenParse(hostname: string, ip: Ipv4, domain: string)
    requires Lower(hostname) == Lower(PrintIpv4(ip) + "." + domain)
    ensures XipAddress(hostname, domain) == Some(ip)
  {
    StripZone(hostname, PrintIpv4(ip), domain);
    PrintedIpv4(ip);
  }

  lemma {:induction false} AddressOfFront(hostname: string, front: string, domain: string)
    requires Lower(hostname) == Lower(front + "." + domain)
    ensures XipAddress(hostname, domain) == LastAddress(Octets(Split(Lower(front), '-')))
  {
    StripZone(hostname, front, domain);
  }

  lemma {:induction false} FoldHyphen(a: string, b: string)
    ensures Lower(a + "-" + b) == Lower(a) + "-" + Lower(b)
  {
  }

  lemma {:induction false} OctetsConcat(a: seq<string>, b: seq<string>)
    ensures Octets(a + b) == Octets(a) + Octets(b)
  {
  }

  lemma {:induction false} HyphenatedOctets(a: string, b: string)
    ensures Octets(Split(Lower(a + "-" + b), '-')) == Octets(Split(Lower(a), '-')) + Octets(Split(Lower(b), '-'))
  {
    FoldHyphen(a, b);
    SplitConcat(Lower(a), Lower(b), '-');
    OctetsConcat(Split(Lower(a), '-'), Split(Lower(b), '-'));
  }

  /** So does an address behind any prefix, itself possibly hyphenated and numeric. */
  lemma {:induction false} PrintThenParseWithPrefix(hostname: string, prefix: string, ip: Ipv4, domain: string)
    requires Lower(hostname) == Lower(prefix + "-" + PrintIpv4(ip) + "." + domain)
    ensures XipAddress(hostname, domain) == Some(ip)
  {
    AddressOfFront(hostname, prefix + "-" + PrintIpv4(ip), domain);
    HyphenatedOctets(prefix, PrintIpv4(ip));
    PrintedIpv4(ip);
    LastFour(Octets(Split(Lower(prefix), '-')), Octets(Split(PrintIpv4(ip), '-')));
  }

  lemma {:induction false} PlainPartOctets(part: string)
    requires '-' !in part
    ensures Octets(Split(Lower(part), '-')) == [ParseOctet(Lower(part))]
  {
    assert LowerChar('-') == '-';
    LowerKeeps(part, '-');
    SplitPlain(Lower(part), '-');
  }

  /** A trailing part that is not an octet never changes the result. */
  lemma {:induction false} AppendedPartIsIgnored(prefix: string, part: string, domain: string)
    requires '-' !in part && ParseOctet(Lower(part)) == None
    ensures XipAddress(prefix + "-" + part + "." + domain, domain) == XipAddress(prefix + "." + domain, domain)
  {
    AddressOfFront(prefix + "-" + part + "." + domain, prefix + "-" + part, domain);
    AddressOfFront(prefix + "." + domain, prefix, domain);
    HyphenatedOctets(prefix, part);
    PlainPartOctets(part);
    TrailingNone(Octets(Split(Lower(prefix), '-')));
  }

  lemma {:induction false} ParsedNameIsInZone(hostname: string, domain: string)
    requires XipAddress(hostname, domain).Some?
    ensures IsOurDomain(hostname, domain)
  {
  }

  lemma {:induction false} CaseIndependent(hostname: string, other: string, domain: string)
    requires Lower(hostname) == Lower(other)
    ensures XipAddress(hostname, domain) == XipAddress(other, domain)
    ensures IsOurDomain(hostname, domain) == IsOurDomain(other, domain)
  {
  }

  // ---- Parsing, then printing ------------------------------------------------------------

  /** A text that could have been printed: no plus sign, and no leading zero but in "0" itself. */
  predicate IsPrinted(s: string) {
    s != "" && s[0] != '+' && (|s| == 1 || s[0] != '0')
  }

  /** Printing writes a digit first, and no leading zero. */
  lemma {:induction false} PrintStarts(n: nat)
    ensures IsPrinted(Print(n)) && AllDigits(Print(n))
    ensures n > 0 ==> Print(n)[0] != '0'
  {
    if n >= 10 {
      PrintStarts(n / 10);
    }
  }

  lemma {:induction false} PrintDecimal(s: string)
    requires AllDigits(s) && IsPrinted(s)
    ensures Print(DecimalValue(s)) == s
    ensures s[0] != '0' ==> DecimalValue(s) > 0
  {
    var front := s[..|s| - 1];
    assert s == front + [s[|s| - 1]];
    if |s| > 1 {
      PrintDecimal(front);
    }
  }

  /** Printing a parsed octet gives the text back exactly when the text has neither a plus sign nor
      a leading zero. */
  lemma {:induction false} ParseThenPrintIff(s: string)
    requires ParseOctet(s).Some?
    ensures Print(ParseOctet(s).value) == s <==> s[0] != '+' && (|s| == 1 || s[0] != '0')
  {
    PrintStarts(ParseOctet(s).value);
    if IsPrinted(s) {
      PrintDecimal(s);
    }
  }

  lemma {:induction false} PrintedIffSameParts(parts: seq<string>, ip: Ipv4)
    requires parts != [] && SeparatorFree(parts, '-')
    ensures PrintIpv4(ip) == Join(parts, '-') <==> PrintedParts(ip) == parts
  {
    PrintedOctet(ip.a);
    PrintedOctet(ip.b);
    PrintedOctet(ip.c);
    PrintedOctet(ip.d);
    SplitJoin(parts, '-');
    SplitJoin(PrintedParts(ip), '-');
  }

  /** So it is for an address, part by part. */
  lemma {:induction false} AddressRoundTripIff(parts: seq<string>, ip: Ipv4)
    requires |parts| == 4 && SeparatorFree(parts, '-') && Window(Octets(parts), 0) == Some(ip)
    ensures PrintIpv4(ip) == Join(parts, '-') <==> forall i | 0 <= i < 4 :: IsPrinted(parts[i])
  {
    PrintedIffSameParts(parts, ip);
    forall i | 0 <= i < 4
      ensures PrintedParts(ip)[i] == parts[i] <==> IsPrinted(parts[i])
    {
      assert Octets(parts)[i] == ParseOctet(parts[i]);
      ParseThenPrintIff(parts[i]);
    }
  }

  /** Two texts that are parsed and not printed. */
  lemma {:induction false} ParseThenPrintIsNotARoundTrip()
    ensures ParseOctet("+7") == Some(7) && ParseOctet("007") == Some(7) && Print(7) == "7"
  {
    assert "+7"[1..] == "7";
    assert "7"[..0] == "" && "007"[..2] == "00" && "00"[..1] == "0" && "0"[..0] == "";
    assert DecimalValue("0") == 0;
    assert DecimalValue("00") == 0;
    assert DecimalValue("007") == 7;
  }

  // ---- Names below a name ----------------------------------------------------------------

  /** A label that makes an address of every in-zone name below which it is put. */
  const BELOW := "1-2-3-4-a"

  lemma {:induction false} PrintedOneToFour()
    ensures PrintIpv4(Ipv4(1, 2, 3, 4)) == "1-2-3-4"
  {
    assert Print(1) == "1" && Print(2) == "2" && Print(3) == "3" && Print(4) == "4";
    assert Join(["3", "4"], '-') == "3-4";
    assert Join(["2", "3", "4"], '-') == "2-3-4";
  }

  /** Four octets in front of anything make an address of some kind. */
  lemma {:induction false} FourInFront(hostname: string, rest: string, zone: string)
    requires Lower(hostname) == Lower("1-2-3-4" + "-" + rest + "." + zone)
    ensures XipAddress(hostname, zone).Some?
  {
    AddressOfFront(hostname, "1-2-3-4" + "-" + rest, zone);
    HyphenatedOctets("1-2-3-4", rest);
    PrintedOneToFour();
    PrintedIpv4(Ipv4(1, 2, 3, 4));
    var four, octets := Octets(Split("1-2-3-4", '-')), Octets(Split(Lower("1-2-3-4" + "-" + rest), '-'));
    assert Lower("1-2-3-4") == "1-2-3-4";
    assert octets == four + octets[4..];
    assert Window(octets, 0) == Window(four, 0);
    LastAddressIsRightmost(octets, Ipv4(1, 2, 3, 4));
  }

  lemma {:induction false} BelowText(hostname: string)
    ensures BELOW + "." + hostname == "1-2-3-4" + "-" + "a." + hostname
    ensures Lower(BELOW) == BELOW && Lower(BELOW + "." + hostname) == BELOW + "." + Lower(hostname)
    ensures forall i | 0 <= i < |BELOW| :: BELOW[i] != '.'
  {
    assert BELOW == "1-2-3-4" + "-" + "a";
    LowerConcat(BELOW, ".");
    LowerConcat(BELOW + ".", hostname);
  }

  lemma {:induction false} BelowInZone(hostname: string, zone: string)
    requires IsOurDomain(hostname, zone)
    ensures XipAddress(BELOW + "." + hostname, zone).Some?
  {
    var host, apex := Lower(hostname), Lower(zone);
    BelowText(hostname);
    if host == apex {
      assert "1-2-3-4" + "-" + "a" + "." + zone == BELOW + "." + zone;
      BelowText(zone);
      FourInFront(BELOW + "." + hostname, "a", zone);
    } else {
      var front := hostname[..|host| - |"." + apex|];
      assert host == Lower(front) + ("." + apex);
      var rest := "a." + front;
      FoldFront(front, zone);
      assert "1-2-3-4" + "-" + rest + "." + zone == BELOW + "." + (front + "." + zone);
      BelowText(front + "." + zone);
      FourInFront(BELOW + "." + hostname, rest, zone);
    }
  }

  lemma {:induction false} FoldFront(front: string, zone: string)
    ensures Lower(front + "." + zone) == Lower(front) + ("." + Lower(zone))
  {
  }

  /** The name with this label below a name carries an address exactly when that name is in the
      zone, whether or not it carries one itself: no name in the zone is cut off below. */
  lemma {:induction false} AddressBelowIff(hostname: string, zone: string)
    ensures XipAddress(BELOW + "." + hostname, zone).Some? <==> IsOurDomain(hostname, zone)
  {
    if IsOurDomain(hostname, zone) {
      BelowInZone(hostname, zone);
    }
    if XipAddress(BELOW + "." + hostname, zone).Some? {
      BelowText(hostname);
      var child, suffix := Lower(BELOW + "." + hostname), "." + Lower(zone);
      var at := |child| - |suffix|;
      assert EndsWith(child, suffix) && child[at] == '.';
      assert child == BELOW + ("." + Lower(hostname));
      assert at >= |BELOW|;
      if at == |BELOW| {
        assert suffix == "." + Lower(hostname);
        assert suffix[1..] == Lower(hostname);
      } else {
        assert child[at..] == Lower(hostname)[at - |BELOW| - 1..];
      }
    }
  }

  /** An instance: in every zone `b` carries no address, and the name below it does. */
  lemma {:induction false} NoCutBelowMissingName(zone: string)
    ensures XipAddress("b." + zone, zone) == None
    ensures XipAddress("1-2-3-4-a.b." + zone, zone) == Some(Ipv4(1, 2, 3, 4))
  {
    assert "b." + zone == "b" + "." + zone;
    AddressOfFront("b." + zone, "b", zone);
    PlainPartOctets("b");
    PrintedOneToFour();
    assert "1-2-3-4-a.b." + zone == "1-2-3-4" + "-" + "a.b" + "." + zone;
    assert Lower("a.b") == "a.b";
    AppendedPartIsIgnored("1-2-3-4", "a.b", zone);
    PrintThenParse("1-2-3-4" + "." + zone, Ipv4(1, 2, 3, 4), zone);
  }

  // ---- Zone membership by labels ---------------------------------------------------------

  lemma {:induction false} FoldKeepsSeparatorFree(labels: seq<string>)
    requires SeparatorFree(labels, '.')
    ensures SeparatorFree(FoldLabels(labels), '.')
  {
    assert LowerChar('.') == '.';
    forall i | 0 <= i < |labels|
      ensures '.' !in FoldLabels(labels)[i]
    {
      assert labels[i] in labels;
      LowerKeeps(labels[i], '.');
    }
  }

  lemma {:induction false} LabelsOfSuffixText(h: seq<string>, z: seq<string>)
    requires h != [] && z != [] && SeparatorFree(h, '.') && SeparatorFree(z, '.')
    requires EndsWith(Join(h, '.'), "." + Join(z, '.'))
    ensures IsSuffix(z, h)
  {
    var ht, zt := Join(h, '.'), Join(z, '.');
    var front := ht[..|ht| - |"." + zt|];
    assert ht == front + "." + zt;
    SplitConcat(front, zt, '.');
    SplitJoin(h, '.');
    SplitJoin(z, '.');
  }

  lemma {:induction false} TextOfSuffixLabels(h: seq<string>, z: seq<string>)
    requires z != [] && IsSuffix(z, h) && |z| < |h|
    ensures EndsWith(Join(h, '.'), "." + Join(z, '.'))
  {
    var front := h[..|h| - |z|];
    assert h == front + z;
    JoinConcat(front, z, '.');
    var suffix := "." + Join(z, '.');
    assert Join(h, '.') == Join(front, '.') + suffix;
    assert Join(h, '.')[|Join(front, '.')|..] == suffix;
  }

  /** Textual membership is membership of label sequences, up to case, when no label holds a dot. */
  lemma {:induction false} MembershipByLabels(host: seq<string>, zone: seq<string>)
    requires host != [] && zone != [] && SeparatorFree(host, '.') && SeparatorFree(zone, '.')
    ensures IsOurDomain(Join(host, '.'), Join(zone, '.')) <==> IsSuffix(FoldLabels(zone), FoldLabels(host))
  {
    var h, z := FoldLabels(host), FoldLabels(zone);
    FoldJoin(host);
    FoldJoin(zone);
    FoldKeepsSeparatorFree(host);
    FoldKeepsSeparatorFree(zone);
    if Join(h, '.') == Join(z, '.') {
      SplitJoin(h, '.');
      SplitJoin(z, '.');
      assert h == z;
    } else if EndsWith(Join(h, '.'), "." + Join(z, '.')) {
      LabelsOfSuffixText(h, z);
    } else if IsSuffix(z, h) {
      assert |z| == |h| ==> z == h;
      TextOfSuffixLabels(h, z);
    }
  }

  /** None of the last `count` labels holds a dot. */
  predicate LastDotFree(host: seq<string>, count: nat) {
    count <= |host| && forall i | |host| - count <= i < |host| :: '.' !in host[i]
  }

  lemma {:induction false} LabelsImplyDotFree(host: seq<string>, zone: seq<string>)
    requires SeparatorFree(zone, '.') && IsSuffix(FoldLabels(zone), FoldLabels(host))
    ensures LastDotFree(host, |zone|)
  {
    var h, z, n := FoldLabels(host), FoldLabels(zone), |host| - |zone|;
    FoldKeepsSeparatorFree(zone);
    forall i | n <= i < |host|
      ensures '.' !in host[i]
    {
      assert h[i] == z[i - n] && z[i - n] in z;
      assert LowerChar('.') == '.';
      LowerKeeps(host[i], '.');
    }
  }

  lemma {:induction false} LabelsImplyText(host: seq<string>, zone: seq<string>)
    requires zone != [] && IsSuffix(FoldLabels(zone), FoldLabels(host))
    ensures IsOurDomain(Join(host, '.'), Join(zone, '.'))
  {
    var h, z := FoldLabels(host), FoldLabels(zone);
    FoldJoin(host);
    FoldJoin(zone);
    if |h| > |z| {
      TextOfSuffixLabels(h, z);
    } else {
      assert h == z;
    }
  }

  lemma {:induction false} SplitBeforeDotFree(h: seq<string>, count: nat) returns (parts: seq<string>)
    requires h != [] && 0 < count && LastDotFree(h, count)
    ensures Split(Join(h, '.'), '.') == parts + h[|h| - count..]
  {
    var front, back := h[..|h| - count], h[|h| - count..];
    assert h == front + back;
    forall p | p in back
      ensures '.' !in p
    {
      var i :| 0 <= i < |back| && back[i] == p;
      assert back[i] == h[|h| - count + i];
    }
    SplitJoin(back, '.');
    parts := [];
    if front != [] {
      JoinConcat(front, back, '.');
      SplitConcat(Join(front, '.'), Join(back, '.'), '.');
      parts := Split(Join(front, '.'), '.');
    }
  }

  lemma {:induction false} TextImpliesLabels(h: seq<string>, z: seq<string>)
    requires h != [] && z != [] && SeparatorFree(z, '.') && LastDotFree(h, |z|)
    requires Join(h, '.') == Join(z, '.') || EndsWith(Join(h, '.'), "." + Join(z, '.'))
    ensures IsSuffix(z, h)
  {
    var ht, zt, back := Join(h, '.'), Join(z, '.'), h[|h| - |z|..];
    var parts := SplitBeforeDotFree(h, |z|);
    SplitJoin(z, '.');
    if ht == zt {
      assert parts + back == z;
    } else {
      var front := ht[..|ht| - |"." + zt|];
      assert ht == front + "." + zt;
      SplitConcat(front, zt, '.');
      assert parts + back == Split(front, '.') + z;
      assert (parts + back)[|parts|..] == back;
      assert (Split(front, '.') + z)[|Split(front, '.')|..] == z;
    }
  }

  lemma {:induction false} FoldLastDotFree(host: seq<string>, count: nat)
    requires LastDotFree(host, count)
    ensures LastDotFree(FoldLabels(host), count)
  {
    assert LowerChar('.') == '.';
    forall i | |host| - count <= i < |host|
      ensures '.' !in FoldLabels(host)[i]
    {
      LowerKeeps(host[i], '.');
    }
  }

  /** For any labels of a name, the check on text agrees with labels exactly when it rejects the
      name, or none of the labels in the place of the zone's holds a dot. */
  lemma {:induction false} TextMatchesLabelsIff(host: seq<string>, zone: seq<string>)
    requires host != [] && zone != [] && SeparatorFree(zone, '.')
    ensures var text := IsOurDomain(Join(host, '.'), Join(zone, '.'));
            var labels := IsSuffix(FoldLabels(zone), FoldLabels(host));
            && (labels ==> text)
            && (text == labels <==> !text || LastDotFree(host, |zone|))
  {
    var h, z := FoldLabels(host), FoldLabels(zone);
    if IsSuffix(z, h) {
      LabelsImplyText(host, zone);
      LabelsImplyDotFree(host, zone);
    } else if IsOurDomain(Join(host, '.'), Join(zone, '.')) && LastDotFree(host, |zone|) {
      FoldJoin(host);
      FoldJoin(zone);
      FoldKeepsSeparatorFree(zone);
      FoldLastDotFree(host, |zone|);
      TextImpliesLabels(h, z);
    }
  }

  /** An instance: with a dot inside a label the text matches where the labels do not. */
  lemma {:induction false} DottedLabelEscapesTheZoneCheck()
    ensures IsOurDomain(Join(["x.a"], '.'), Join(["a"], '.'))
    ensures !IsSuffix(FoldLabels(["a"]), FoldLabels(["x.a"]))
  {
    assert Lower("x.a") == "x.a" && Lower("a") == "a";
    assert "x.a"[1..] == ".a";
    assert |FoldLabels(["x.a"])[0]| == 3 && |FoldLabels(["a"])[0]| == 1;
  }
}
