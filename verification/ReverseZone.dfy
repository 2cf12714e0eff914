/** Reverse zones for IPv4: accepting a block of addresses for an in-addr.arpa zone and
    naming the record of each address relative to that zone. */
module ReverseZone {

  import opened Arithmetic
  import opened Text
  import opened Wrappers

  const ARPA := ".in-addr.arpa"
  const ADDRESSES := 0x1_0000_0000
  const MAX_BLOCK := 65536

  /** The four octets of an address, the most significant first. */
  type Address = a: seq<nat> | |a| == 4 && forall i :: 0 <= i < 4 ==> a[i] < 256 witness [0, 0, 0, 0]

  function Octet(n: nat, j: nat): nat
    requires j < 4
  {
    (n / Pow2(24 - 8 * j)) % 256
  }

  function Octets(n: nat): Address {
    [Octet(n, 0), Octet(n, 1), Octet(n, 2), Octet(n, 3)]
  }

  function Dotted(a: Address): string {
    Join([Decimal(a[0]), Decimal(a[1]), Decimal(a[2]), Decimal(a[3])], '.')
  }

  /** The labels of the first n octets, the last of them first. */
  function Reversed(a: Address, n: nat): (labels: seq<string>)
    requires n <= 4
    ensures |labels| == n && forall i :: 0 <= i < n ==> labels[i] == Decimal(a[n - 1 - i]) && '.' !in labels[i]
  {
    if n == 0 then []
    else
      assert '.' !in Decimal(a[n - 1]);
      [Decimal(a[n - 1])] + Reversed(a, n - 1)
  }

  /** The name of an address in the reverse tree (section 3.5 of RFC 1035). */
  function ReverseName(a: Address): string {
    Join(Reversed(a, 4), '.') + ARPA
  }

  /** reverseIPv4: a string without four parts is returned unchanged. */
  function ReverseIPv4(ip: string): string {
    var parts := Split(ip, '.');
    if |parts| != 4 then ip else Join([parts[3], parts[2], parts[1], parts[0]], '.') + ARPA
  }

  lemma ReverseOfDotted(a: Address)
    ensures ReverseIPv4(Dotted(a)) == ReverseName(a)
  {
    var labels := [Decimal(a[0]), Decimal(a[1]), Decimal(a[2]), Decimal(a[3])];
    assert forall i :: 0 <= i < 4 ==> '.' !in labels[i];
    SplitOfJoin(labels, '.');
    assert Reversed(a, 4) == [labels[3], labels[2], labels[1], labels[0]];
  }

  // --- Accepting a block

  /** strconv.Atoi succeeds with a value from 0 to 255. */
  predicate IsOctet(part: string) {
    var digits := if part != "" && part[0] in {'+', '-'} then part[1..] else part;
    && digits != "" && (forall i :: 0 <= i < |digits| ==> IsDigit(digits[i]))
    && Value(digits) <= 255 && (part[0] == '-' ==> Value(digits) == 0)
  }

  /** The origin names the reverse zone with these labels, whatever its case. */
  ghost predicate IsZone(origin: string, labels: seq<string>) {
    && 1 <= |labels| <= 4 && (forall i :: 0 <= i < |labels| ==> IsOctet(labels[i]))
    && Lower(TrimSuffix(origin, ".")) == Join(labels, '.') + ARPA
  }

  /** reverseIPv4ZoneLabels: the labels of a reverse zone, and an error for anything else. */
  method ZoneLabels(origin: string) returns (labels: Option<seq<string>>)
    ensures labels.Some? ==> IsZone(origin, labels.value)
    ensures forall zone :: IsZone(origin, zone) ==> labels == Some(zone)
  {
    hide Split, Join, IsOctet;
    var stripped := Lower(TrimSuffix(origin, "."));
    forall zone | IsZone(origin, zone)
      ensures HasSuffix(stripped, ARPA) && Split(TrimSuffix(stripped, ARPA), '.') == zone
    {
      ZoneIsUnique(stripped, zone);
    }
    if !HasSuffix(stripped, ARPA) {
      return None;
    }
    var parts := Split(TrimSuffix(stripped, ARPA), '.');
    JoinOfSplit(TrimSuffix(stripped, ARPA), '.');
    assert stripped == TrimSuffix(stripped, ARPA) + ARPA;
    if |parts| < 1 || |parts| > 4 {
      return None;
    }
    for i := 0 to |parts|
      invariant forall j :: 0 <= j < i ==> IsOctet(parts[j])
    {
      if !IsOctet(parts[i]) {
        return None;
      }
    }
    labels := Some(parts);
  }

  lemma OctetHasNoDot(octet: string)
    requires IsOctet(octet)
    ensures '.' !in octet
  {
    var digits := if octet != "" && octet[0] in {'+', '-'} then octet[1..] else octet;
    assert forall i :: 0 <= i < |digits| ==> IsDigit(digits[i]);
    assert octet == digits || octet == [octet[0]] + digits;
  }

  lemma ZoneIsUnique(stripped: string, labels: seq<string>)
    requires labels != [] && stripped == Join(labels, '.') + ARPA
    requires forall i :: 0 <= i < |labels| ==> IsOctet(labels[i])
    ensures HasSuffix(stripped, ARPA) && Split(TrimSuffix(stripped, ARPA), '.') == labels
  {
    forall i | 0 <= i < |labels| ensures '.' !in labels[i] {
      OctetHasNoDot(labels[i]);
    }
    SplitOfJoin(labels, '.');
    assert stripped[|stripped| - |ARPA|..] == ARPA && stripped[..|stripped| - |ARPA|] == Join(labels, '.');
  }

  /** The address lies in the zone, which fixes its first n octets. */
  ghost predicate InZone(origin: string, a: Address, n: nat) {
    && 1 <= n <= 4 && HasSuffix(origin, ".")
    && Lower(TrimSuffix(origin, ".")) == Join(Reversed(a, n), '.') + ARPA
  }

  lemma {:induction false} DecimalSize(n: nat)
    ensures Value(Decimal(n)) == n && IsDigit(Decimal(n)[0])
  {
    ValueOfDecimal(n);
  }

  lemma InZoneIsZone(origin: string, a: Address, n: nat)
    requires InZone(origin, a, n)
    ensures IsZone(origin, Reversed(a, n))
  {
    forall i | 0 <= i < n ensures IsOctet(Reversed(a, n)[i]) {
      DecimalSize(a[n - 1 - i]);
    }
  }

  /** validateZoneCIDRNetwork accepts a network, and then returns the bits the zone fixes,
      just when the zone is the reverse zone of the network's leading octets and the block
      is no larger than it. */
  method ValidateNetwork(origin: string, ip: Option<Address>, prefix: int) returns (fixed: Option<nat>)
    ensures fixed.Some? <==> ip.Some? && exists n: nat :: InZone(origin, ip.value, n) && prefix >= 8 * n
    ensures fixed.Some? ==> exists n: nat :: InZone(origin, ip.value, n) && fixed.value == 8 * n <= prefix
  {
    hide Join, IsOctet, Decimal, Reversed;
    if ip.Some? {
      forall n | InZone(origin, ip.value, n) ensures IsZone(origin, Reversed(ip.value, n)) {
        InZoneIsZone(origin, ip.value, n);
      }
    }
    if !HasSuffix(origin, ".") {
      return None;
    }
    var labels := ZoneLabels(origin);
    if labels.None? || prefix < 8 * |labels.value| || ip.None? {
      return None;
    }
    var n := |labels.value|;
    for i := 0 to n
      invariant forall j :: 0 <= j < i ==> labels.value[j] == Decimal(ip.value[n - 1 - j])
    {
      if labels.value[i] != Decimal(ip.value[n - 1 - i]) {
        return None;
      }
    }
    assert labels.value == Reversed(ip.value, n);
    assert InZone(origin, ip.value, n);
    fixed := Some(8 * n);
  }

  // --- Naming the record of an address

  /** The number of leading labels that reverseIPv4Relative keeps. */
  function VaryingLabels(numFixed: nat): nat {
    if numFixed > 3 then 1 else 4 - numFixed
  }

  function RelativeName(ip: string, origin: string): string {
    var fqdn, stripped := ReverseIPv4(ip), TrimSuffix(origin, ".");
    var fixed, parts := |Split(TrimSuffix(stripped, ARPA), '.')|, Split(fqdn, '.');
    if !HasSuffix(stripped, ARPA) || !(1 <= fixed <= 4) || |parts| < 6 then fqdn
    else Join(parts[..VaryingLabels(fixed)], '.')
  }

  /** reverseIPv4Relative. */
  method ReverseRelative(ip: string, origin: string) returns (name: string)
    ensures name == RelativeName(ip, origin)
  {
    hide Split, Join, ReverseIPv4;
    var fqdn := ReverseIPv4(ip);
    var stripped := TrimSuffix(origin, ".");
    var remainder := TrimSuffix(stripped, ARPA);
    if remainder == stripped {
      return fqdn;
    }
    var numFixed := |Split(remainder, '.')|;
    if numFixed < 1 || numFixed > 4 {
      return fqdn;
    }
    var zonePrefix := 8 * numFixed;
    var varying := 4 - zonePrefix / 8;
    if varying < 1 {
      varying := 1;
    }
    if varying > 4 {
      varying := 4;
    }
    var parts := Split(fqdn, '.');
    if |parts| < 6 {
      return fqdn;
    }
    var result := [];
    for i := 0 to varying
      invariant result == parts[..i]
    {
      result := result + [parts[i]];
    }
    name := Join(result, '.');
  }

  lemma TwoLabels(x: string, y: string)
    requires '.' !in x && '.' !in y
    ensures Split(x + "." + y, '.') == [x, y]
  {
    hide Split;
    SplitAtFirst(x, y, '.');
    SplitWithout(y, '.');
  }

  lemma ReverseNameLabels(a: Address)
    ensures Split(ReverseName(a), '.') == Reversed(a, 4) + ["in-addr", "arpa"]
  {
    hide Split, Join, Reversed;
    var front := Join(Reversed(a, 4), '.');
    TwoLabels("in-addr", "arpa");
    SplitOfJoin(Reversed(a, 4), '.');
    SplitConcat(front, "in-addr" + "." + "arpa", '.');
    assert ReverseName(a) == front + "." + ("in-addr" + "." + "arpa");
  }

  /** Digits and dots have no case, so a zone whose suffix is in lower case is all in lower
      case. */
  lemma LowerZone(stripped: string, labels: seq<string>)
    requires Lower(stripped) == Join(labels, '.') + ARPA && HasSuffix(stripped, ARPA)
    requires forall i :: 0 <= i < |Join(labels, '.')| ==> IsDigit(Join(labels, '.')[i]) || Join(labels, '.')[i] == '.'
    ensures stripped == Join(labels, '.') + ARPA
  {
    var zone := Join(labels, '.');
    assert |stripped| == |zone| + |ARPA|;
    forall i | 0 <= i < |zone| ensures stripped[i] == zone[i] {
      assert LowerChar(stripped[i]) == zone[i];
    }
    assert stripped == stripped[..|zone|] + stripped[|zone|..];
  }

  lemma {:induction false} ZoneText(a: Address, n: nat)
    requires n <= 4
    ensures forall i :: 0 <= i < |Join(Reversed(a, n), '.')| ==>
              IsDigit(Join(Reversed(a, n), '.')[i]) || Join(Reversed(a, n), '.')[i] == '.'
  {
    if n > 1 {
      ZoneText(a, n - 1);
      assert Reversed(a, n)[1..] == Reversed(a, n - 1);
    }
  }

  lemma {:induction false} ReversedTail(a: Address, n: nat, m: nat)
    requires n <= m <= 4
    ensures Reversed(a, m) == Reversed(a, m)[..m - n] + Reversed(a, n)
  {
  }

  /** An address of the zone gets a name that, joined to the origin, is its own reverse name
      just when the zone fixes at most three octets and its suffix is in lower case. */
  lemma RelativeExact(a: Address, origin: string, n: nat)
    requires InZone(origin, a, n)
    ensures (RelativeName(Dotted(a), origin) + "." + origin == ReverseName(a) + ".") <==>
              n <= 3 && HasSuffix(TrimSuffix(origin, "."), ARPA)
  {
    hide Split, Join, Reversed, RelativeName, Dotted;
    var stripped, zone, name := TrimSuffix(origin, "."), Join(Reversed(a, n), '.'), RelativeName(Dotted(a), origin);
    assert origin == stripped + ".";
    if HasSuffix(stripped, ARPA) {
      ZoneText(a, n);
      LowerZone(stripped, Reversed(a, n));
      RelativeLabels(a, origin, n);
      if n <= 3 {
        RelativeJoined(a, n);
        assert name + "." + (zone + ARPA + ".") == (name + "." + zone) + ARPA + ".";
      } else {
        assert |name + "." + origin| > |ReverseName(a) + "."|;
      }
    } else {
      ForeignSuffix(a, origin);
      assert |name + "." + origin| > |ReverseName(a) + "."|;
    }
  }

  /** The zone of a single address: the owner of its record would be the last octet once
      more. */
  lemma FourOctetZone(a: Address)
    ensures var origin := ReverseName(a) + ".";
            InZone(origin, a, 4) && RelativeName(Dotted(a), origin) + "." + origin != ReverseName(a) + "."
  {
    hide Split, Join, Reversed, RelativeName, Dotted;
    var origin := ReverseName(a) + ".";
    assert TrimSuffix(origin, ".") == ReverseName(a);
    ZoneText(a, 4);
    LowerOfZone(Join(Reversed(a, 4), '.'), ARPA);
    RelativeExact(a, origin, 4);
  }

  /** A zone whose suffix is written in upper case: the owner would be the full name. */
  lemma UpperCaseZone(a: Address, n: nat)
    requires 1 <= n <= 4
    ensures var origin := Join(Reversed(a, n), '.') + ".IN-ADDR.ARPA" + ".";
            InZone(origin, a, n) && RelativeName(Dotted(a), origin) + "." + origin != ReverseName(a) + "."
  {
    hide Split, Join, Reversed, RelativeName, Dotted;
    var zone := Join(Reversed(a, n), '.');
    var origin := zone + ".IN-ADDR.ARPA" + ".";
    assert TrimSuffix(origin, ".") == zone + ".IN-ADDR.ARPA";
    ZoneText(a, n);
    LowerOfZone(zone, ".IN-ADDR.ARPA");
    assert Lower(".IN-ADDR.ARPA") == ARPA;
    assert (zone + ".IN-ADDR.ARPA")[|zone| + 1] == 'I' && ARPA[1] == 'i';
    RelativeExact(a, origin, n);
  }

  lemma LowerOfZone(zone: string, suffix: string)
    requires forall i :: 0 <= i < |zone| ==> IsDigit(zone[i]) || zone[i] == '.'
    ensures Lower(zone + suffix) == zone + Lower(suffix)
    ensures suffix == ARPA ==> Lower(suffix) == suffix
  {
    assert Lower(ARPA) == ARPA;
  }

  lemma ForeignSuffix(a: Address, origin: string)
    requires !HasSuffix(TrimSuffix(origin, "."), ARPA)
    ensures RelativeName(Dotted(a), origin) == ReverseName(a)
  {
    hide Split, Join, Reversed, Dotted;
    ReverseOfDotted(a);
  }

  lemma RelativeLabels(a: Address, origin: string, n: nat)
    requires 1 <= n <= 4 && TrimSuffix(origin, ".") == Join(Reversed(a, n), '.') + ARPA
    ensures RelativeName(Dotted(a), origin) == Join(Reversed(a, 4)[..VaryingLabels(n)], '.')
  {
    hide Split, Join, Reversed, Dotted, ReverseIPv4;
    var stripped := TrimSuffix(origin, ".");
    ReverseOfDotted(a);
    ReverseNameLabels(a);
    SplitOfJoin(Reversed(a, n), '.');
    assert HasSuffix(stripped, ARPA) && TrimSuffix(stripped, ARPA) == Join(Reversed(a, n), '.');
    assert (Reversed(a, 4) + ["in-addr", "arpa"])[..VaryingLabels(n)] == Reversed(a, 4)[..VaryingLabels(n)];
  }

  lemma RelativeJoined(a: Address, n: nat)
    requires 1 <= n <= 3
    ensures Join(Reversed(a, 4)[..4 - n], '.') + "." + Join(Reversed(a, n), '.') == Join(Reversed(a, 4), '.')
  {
    ReversedTail(a, n, 4);
    JoinConcat(Reversed(a, 4)[..4 - n], Reversed(a, n), '.');
  }

  /** Different addresses have different reverse names. */
  lemma ReverseNameInjective(a: Address, b: Address)
    requires ReverseName(a) == ReverseName(b)
    ensures a == b
  {
    ReverseNameLabels(a);
    ReverseNameLabels(b);
    forall i | 0 <= i < 4 ensures a[i] == b[i] {
      assert Reversed(a, 4)[3 - i] == (Reversed(a, 4) + ["in-addr", "arpa"])[3 - i];
      assert Reversed(b, 4)[3 - i] == (Reversed(b, 4) + ["in-addr", "arpa"])[3 - i];
      ValueOfDecimal(a[i]);
      ValueOfDecimal(b[i]);
    }
  }

  lemma OctetsInjective(m: nat, n: nat)
    requires m < ADDRESSES && n < ADDRESSES
    ensures Octets(m) == Octets(n) ==> m == n
  {
    hide Octet;
    OctetsValue(m);
    OctetsValue(n);
    if Octets(m) == Octets(n) {
      assert forall j :: 0 <= j < 4 ==> Octets(m)[j] == Octets(n)[j];
    }
  }

  lemma Powers()
    ensures Pow2(0) == 1 && Pow2(8) == 256 && Pow2(16) == 65536 && Pow2(24) == 16777216 && Pow2(32) == ADDRESSES
  {
    assert Pow2(8) == 256;
    Pow2Sum(8, 8);
    Pow2Sum(8, 16);
    Pow2Sum(8, 24);
  }

  lemma OctetsValue(n: nat)
    requires n < ADDRESSES
    ensures n == ((Octet(n, 0) * 256 + Octet(n, 1)) * 256 + Octet(n, 2)) * 256 + Octet(n, 3)
  {
    hide Pow2;
    Powers();
    var hi, mid, lo := n / 16777216, n / 65536, n / 256;
    assert mid == 256 * hi + mid % 256 && lo == 256 * mid + lo % 256 && n == 256 * lo + n % 256;
    assert hi % 256 == hi;
  }

  // --- The addresses of a block

  /** All addresses of an aligned block share the octets that its zone fixes. */
  lemma BlockSharesOctets(base: nat, ones: nat, i: nat, j: nat)
    requires ones <= 32 && base % Pow2(32 - ones) == 0 && i < Pow2(32 - ones)
    requires j < 4 && 8 * (j + 1) <= ones
    ensures Octet(base + i, j) == Octet(base, j)
  {
    hide Pow2;
    var block, m := Pow2(32 - ones), Pow2(24 - 8 * j - (32 - ones));
    Pow2Sum(24 - 8 * j - (32 - ones), 32 - ones);
    var q := base / block;
    assert base == q * block;
    CoarserQuotient(q, m, block, i);
  }

  lemma BlockFits(base: nat, ones: nat)
    requires ones <= 32 && base < ADDRESSES && base % Pow2(32 - ones) == 0
    ensures base + Pow2(32 - ones) <= ADDRESSES
  {
    hide Pow2;
    var block, m, q := Pow2(32 - ones), Pow2(ones), base / Pow2(32 - ones);
    Powers();
    Pow2Sum(ones, 32 - ones);
    assert base == q * block && m * block == ADDRESSES;
    Multiple(m - q, block);
    assert (m - q) * block == m * block - q * block;
  }

  lemma BlockInZone(origin: string, base: nat, ones: nat, n: nat, i: nat)
    requires ones <= 32 && base % Pow2(32 - ones) == 0 && i < Pow2(32 - ones) && 8 * n <= ones
    ensures InZone(origin, Octets(base), n) ==> InZone(origin, Octets(base + i), n)
  {
    hide Pow2, Octet, Join, Reversed;
    forall j | 0 <= j < n ensures Octets(base + i)[j] == Octets(base)[j] {
      BlockSharesOctets(base, ones, i, j);
    }
    assert Reversed(Octets(base + i), n) == Reversed(Octets(base), n);
  }

  /** The owner names joined to the origin are the reverse names of the block's addresses. */
  ghost predicate NamesBlock(origin: string, base: nat, owners: seq<string>) {
    forall i :: 0 <= i < |owners| ==> owners[i] + "." + origin == ReverseName(Octets(base + i)) + "."
  }

  /** For an accepted block each owner name reconstructs the reverse name of its address, just
      when the zone fixes at most three octets and its suffix is in lower case. */
  lemma BlockNamed(origin: string, base: nat, ones: nat, n: nat, owners: seq<string>)
    requires ones <= 32 && base % Pow2(32 - ones) == 0 && InZone(origin, Octets(base), n) && 8 * n <= ones
    requires |owners| == Pow2(32 - ones)
    requires forall i :: 0 <= i < |owners| ==> owners[i] == RelativeName(Dotted(Octets(base + i)), origin)
    ensures NamesBlock(origin, base, owners) <==> n <= 3 && HasSuffix(TrimSuffix(origin, "."), ARPA)
  {
    hide Pow2, Octet, Octets, InZone, RelativeName, Dotted, ReverseName;
    forall i | 0 <= i < |owners|
      ensures (owners[i] + "." + origin == ReverseName(Octets(base + i)) + ".") <==>
                n <= 3 && HasSuffix(TrimSuffix(origin, "."), ARPA)
    {
      BlockInZone(origin, base, ones, n, i);
      RelativeExact(Octets(base + i), origin, n);
    }
    assert 0 < |owners|;
    if NamesBlock(origin, base, owners) {
      assert owners[0] + "." + origin == ReverseName(Octets(base + 0)) + ".";
    }
  }

  /** Owner names that reconstruct the reverse names are all different. */
  lemma BlockDistinct(origin: string, base: nat, owners: seq<string>, i: nat, j: nat)
    requires NamesBlock(origin, base, owners) && base + |owners| <= ADDRESSES
    requires i < |owners| && j < |owners| && owners[i] == owners[j]
    ensures i == j
  {
    hide Octet, Octets, ReverseName;
    var a, b := ReverseName(Octets(base + i)), ReverseName(Octets(base + j));
    assert a == (a + ".")[..|a|] && b == (b + ".")[..|b|];
    ReverseNameInjective(Octets(base + i), Octets(base + j));
    OctetsInjective(base + i, base + j);
  }

  /** The owner names of a bulk request for an aligned block, as the handler computes them
      with 32-bit addition; no names for a block that is too large or not in the zone. */
  method BulkOwners(origin: string, base: nat, ones: nat) returns (owners: Option<seq<string>>)
    requires ones <= 32 && base < ADDRESSES && base % Pow2(32 - ones) == 0
    ensures owners.Some? <==>
              && Pow2(32 - ones) <= 65536
              && exists n: nat :: InZone(origin, Octets(base), n) && ones >= 8 * n
    ensures owners.Some? ==>
              && |owners.value| == Pow2(32 - ones)
              && forall i :: 0 <= i < |owners.value| ==>
                   owners.value[i] == RelativeName(Dotted(Octets(base + i)), origin)
  {
    hide Pow2, Octet, Octets, InZone, RelativeName, Dotted;
    var numIPs := Pow2(32 - ones);
    if numIPs > MAX_BLOCK {
      return None;
    }
    var fixed := ValidateNetwork(origin, Some(Octets(base)), ones);
    if fixed.None? {
      return None;
    }
    BlockFits(base, ones);
    var names := [];
    for i := 0 to numIPs
      invariant |names| == i
      invariant forall j :: 0 <= j < i ==> names[j] == RelativeName(Dotted(Octets(base + j)), origin)
    {
      var name := ReverseRelative(Dotted(Octets((base + i) % ADDRESSES)), origin);
      names := names + [name];
    }
    owners := Some(names);
  }
}
