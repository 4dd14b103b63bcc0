/** The octets of a challenge reply that are not answers, in terms of the configured names. */
module Overhead {
  import opened Text
  import opened Names
  import opened Messages
  import opened Encoder
  import opened Configuration
  import opened Delivery
  import opened Spelling
  import WireCapacity
  import Xip

  /** The octets of labels that are written out in front of a pointer. */
  function LabelOctets(labels: Name): nat {
    if labels == [] then 0 else 1 + |labels[0]| + LabelOctets(labels[1..])
  }

  /** Past the pointer limit a name is written out up to its first reachable suffix. */
  lemma {:induction false} PointedName(mode: Compression, front: Name, base: Name, b: Buffer)
    requires b.size >= POINTER_LIMIT && base != [] && Key(mode, base) in b.names
    requires forall i | 0 <= i < |front| :: Key(mode, front[i..] + base) !in b.names
    ensures WriteName(mode, front + base, b) == b.(size := b.size + LabelOctets(front) + 2)
  {
    if front == [] {
      assert front + base == base;
    } else {
      assert front[0..] + base == front + base;
      assert (front + base)[1..] == front[1..] + base;
      assert forall i | 0 <= i < |front| - 1 :: front[1..][i..] == front[i + 1..];
      PointedName(mode, front[1..], base, b.(size := b.size + 1 + |front[0]|));
    }
  }

  /** The nameserver's labels in front of the longest suffix that the challenge name makes reachable. */
  function PointedFront(acmeName: Name, zone: Name, nameserver: Name): Name {
    if IsSuffix(acmeName, nameserver) then nameserver[..|nameserver| - |acmeName|]
    else if IsSuffix(zone, nameserver) then nameserver[..|nameserver| - |zone|]
    else nameserver
  }

  lemma {:induction false} SuffixesOfName(name: Name, k: Name)
    ensures k in Suffixes(name) <==> k != [] && IsSuffix(k, name)
  {
    if k == name {
      assert name[0..] == name;
    } else if name != [] {
      SuffixesOfName(name[1..], k);
      if |k| < |name| {
        assert name[1..][|name| - 1 - |k|..] == name[|name| - |k|..];
      }
    }
  }

  lemma {:induction false} LongerIsUnreachable(acmeName: Name, zone: Name, name: Name, k: Name)
    requires acmeName != [] && acmeName[1..] == zone && IsSuffix(k, name) && |k| > |zone|
    requires IsSuffix(acmeName, name) ==> |k| > |acmeName|
    ensures k !in Suffixes(acmeName)
  {
    SuffixesOfName(acmeName, k);
    assert |k| == |acmeName| ==> acmeName[|acmeName| - |k|..] == acmeName;
  }

  /** A folded name in the zone is pointed to from its front on. */
  lemma {:induction false} FrontIsPointed(acmeName: Name, zone: Name, name: Name, b: Buffer, mode: Compression)
    requires zone != [] && acmeName != [] && acmeName[1..] == zone && IsSuffix(zone, name)
    requires FoldLabels(acmeName) == acmeName && FoldLabels(name) == name
    requires b.size >= POINTER_LIMIT && b.names == Suffixes(acmeName)
    ensures WriteName(mode, name, b) == b.(size := b.size + LabelOctets(PointedFront(acmeName, zone, name)) + 2)
  {
    var front := PointedFront(acmeName, zone, name);
    var base := if IsSuffix(acmeName, name) then acmeName else zone;
    assert name == front + base;
    SuffixIsFolded(acmeName, zone);
    SuffixesOfName(acmeName, base);
    forall i | 0 <= i < |front|
      ensures Key(mode, front[i..] + base) !in b.names
    {
      assert name[i..] == front[i..] + base;
      assert name[|name| - |name[i..]|..] == name[i..];
      SuffixIsFolded(name, name[i..]);
      LongerIsUnreachable(acmeName, zone, name, name[i..]);
    }
    PointedName(mode, front, base, b);
  }

  lemma {:induction false} SuffixIsFolded(name: Name, suffix: Name)
    requires FoldLabels(name) == name && IsSuffix(suffix, name)
    ensures FoldLabels(suffix) == suffix
  {
    var n := |name| - |suffix|;
    assert forall i | 0 <= i < |suffix| :: suffix[i] == name[n + i] && Lower(name[n + i]) == FoldLabels(name)[n + i];
  }

  // ---- The configured names --------------------------------------------------------------

  lemma {:induction false} NameserverIsBelowZone(config: Config, nameserver: string)
    requires config.InZone(nameserver)
    ensures IsSuffix(config.Zone(), Split(nameserver, '.'))
  {
    SplitParts(nameserver, '.');
    SplitParts(config.domain, '.');
    if nameserver == config.domain {
      assert config.Zone()[0..] == config.Zone();
    } else {
      Xip.LabelsOfSuffixText(Split(nameserver, '.'), config.Zone());
    }
  }

  lemma {:induction false} OneLabelFront(zone: Name, first: string)
    requires first != ACME_LABEL
    ensures PointedFront([ACME_LABEL] + zone, zone, [first] + zone) == [first] && LabelOctets([first]) == 1 + |first|
  {
    var acmeName, nameserver := [ACME_LABEL] + zone, [first] + zone;
    assert acmeName[0] != nameserver[0] && nameserver[0..] == nameserver && nameserver[1..] == zone;
    assert [first][1..] == [];
  }

  lemma {:induction false} FarSoaSize(mode: Compression, acmeName: Name, zone: Name, nameserver: Name, b: Buffer)
    requires zone != [] && acmeName == [ACME_LABEL] + zone && IsSuffix(zone, nameserver)
    requires FoldLabels(acmeName) == acmeName && FoldLabels(nameserver) == nameserver
    requires FoldLabels([ADMIN_LABEL] + zone) == [ADMIN_LABEL] + zone
    requires b.size >= POINTER_LIMIT && b.names == Suffixes(acmeName)
    ensures WriteRecord(mode, WireCapacity.SoaRecord(zone, nameserver, 0), b).size
         == b.size + LabelOctets(PointedFront(acmeName, zone, nameserver)) + 42
  {
    var admin := [ADMIN_LABEL] + zone;
    assert acmeName[1..] == zone && admin[1..] == zone;
    var b1 := b.(size := b.size + 2);
    ZoneIsPointed(mode, acmeName, zone, b);
    var b2 := b1.(size := b1.size + 10);
    FrontIsPointed(acmeName, zone, nameserver, b2, mode);
    var b3 := WriteName(mode, nameserver, b2);
    OneLabelFront(zone, ADMIN_LABEL);
    assert ADMIN_LABEL != ACME_LABEL && |ADMIN_LABEL| == 5;
    FrontIsPointed(acmeName, zone, admin, b3, mode);
  }

  lemma {:induction false} ZoneIsPointed(mode: Compression, acmeName: Name, zone: Name, b: Buffer)
    requires zone != [] && acmeName == [ACME_LABEL] + zone && FoldLabels(acmeName) == acmeName
    requires b.size >= POINTER_LIMIT && b.names == Suffixes(acmeName)
    ensures WriteName(mode, zone, b) == b.(size := b.size + 2)
  {
    assert acmeName[1..] == zone;
    SuffixIsFolded(acmeName, zone);
    SuffixesOfName(acmeName, zone);
    assert [] + zone == zone;
    PointedName(mode, [], zone, b);
  }

  lemma {:induction false} OverheadOf(c: WireCapacity.Capacity, acmeLength: nat, octets: nat)
    requires c.zone != [] && c.acmeName == [ACME_LABEL] + c.zone && IsSuffix(c.zone, c.nsHostname)
    requires FoldLabels(c.acmeName) == c.acmeName && FoldLabels(c.nsHostname) == c.nsHostname
    requires FoldLabels([ADMIN_LABEL] + c.zone) == [ADMIN_LABEL] + c.zone
    requires acmeLength == WireLength(c.acmeName)
    requires octets == LabelOctets(PointedFront(c.acmeName, c.zone, c.nsHostname))
    ensures c.FarOverhead() == acmeLength + octets + 69
  {
    assert Key(c.compression, c.acmeName) == c.acmeName;
    FarSoaSize(c.compression, c.acmeName, c.zone, c.nsHostname, Buffer(POINTER_LIMIT, Suffixes(c.acmeName)));
  }

  /** The overhead of a message that reaches past the pointer limit, in octets of the challenge name
      and of the nameserver's labels in front of what it shares with that name. This covers a
      nameserver that is the zone itself, or is at or below the challenge name. */
  lemma {:induction false} OverheadInOctets(config: Config, mode: Compression, acmeLength: nat, octets: nat)
    requires config.Parsed() && config.NamesAccepted()
    requires acmeLength == WireLength(Split(config.AcmeName(), '.'))
    requires octets == LabelOctets(PointedFront(Split(config.AcmeName(), '.'), config.Zone(),
                                                Split(config.nsHostname, '.')))
    ensures config.Capacity(mode).FarOverhead() == acmeLength + octets + 69
  {
    CapacityIsValid(config, mode);
    AcmeLabelsAreLower(config);
    SoaIsFolded(config, 0);
    NameserverIsBelowZone(config, config.nsHostname);
    OverheadOf(config.Capacity(mode), acmeLength, octets);
  }

  /** With a nameserver one label below the zone, the overhead is read off two lengths of text. */
  lemma {:induction false} OrdinaryOverhead(config: Config, mode: Compression, first: string)
    requires config.Parsed() && config.NamesAccepted() && '.' !in first && first != ACME_LABEL
    requires config.nsHostname == first + "." + config.domain
    ensures config.Capacity(mode).FarOverhead() == |config.domain| + |first| + 88
  {
    CapacityIsValid(config, mode);
    PrefixedName(first, config.domain);
    OneLabelFront(config.Zone(), first);
    TextLength(config.AcmeName());
    OverheadInOctets(config, mode, |config.AcmeName()| + 2, 1 + |first|);
  }
}
