/** Domain names as label sequences, and their presentation text. */
module Names {
  import opened Wrappers
  import opened Text

  /** The labels of a name, most specific first; the root has none. */
  type Name = seq<string>

  function FoldLabels(labels: Name): Name {
    seq(|labels|, i requires 0 <= i < |labels| => Lower(labels[i]))
  }

  predicate IsSuffix<T(==)>(suffix: seq<T>, s: seq<T>) {
    |suffix| <= |s| && s[|s| - |suffix|..] == suffix
  }

  /** Octets of the uncompressed encoding: a length octet per label, and the root. */
  function WireLength(name: Name): nat {
    if name == [] then 1 else 1 + |name[0]| + WireLength(name[1..])
  }

  /** Section 2.3.4 of RFC 1035: labels of 1 to 63 octets, names of at most 255. */
  predicate LegalName(name: Name) {
    (forall i | 0 <= i < |name| :: 1 <= |name[i]| <= 63) && WireLength(name) <= 255
  }

  /** A letter, digit, hyphen or underscore; escapes and other octets are not modelled. */
  predicate IsNameChar(c: char) {
    'a' <= c <= 'z' || 'A' <= c <= 'Z' || '0' <= c <= '9' || c == '-' || c == '_'
  }

  predicate LegalText(text: string) {
    && LegalName(Split(text, '.'))
    && forall i | 0 <= i < |text| :: text[i] == '.' || IsNameChar(text[i])
  }

  /** Reads a name from presentation text that has no trailing dot. */
  function FromAscii(text: string): Option<Name> {
    if LegalText(text) then Some(Split(text, '.')) else None
  }

  /** The presentation text of a fully qualified name: every label followed by a dot. */
  function ToAscii(name: Name): string {
    if name == [] then "." else Join(name, '.') + "."
  }

  /** The form in which the server compares names: no trailing dots, lower case. */
  function Canonical(text: string): string {
    Lower(TrimEnd(text, '.'))
  }

  lemma {:induction false} WireLengthFold(name: Name)
    ensures WireLength(FoldLabels(name)) == WireLength(name)
  {
    if name != [] {
      WireLengthFold(name[1..]);
      assert FoldLabels(name)[1..] == FoldLabels(name[1..]);
    }
  }

  lemma {:induction false} TrimFold(s: string)
    ensures Lower(TrimEnd(s, '.')) == TrimEnd(Lower(s), '.')
  {
    if s != "" {
      assert LowerChar('.') == '.';
      assert Lower(s)[..|s| - 1] == Lower(s[..|s| - 1]);
      if s[|s| - 1] == '.' {
        TrimFold(s[..|s| - 1]);
      }
    }
  }

  lemma {:induction false} FoldJoin(labels: Name)
    requires labels != []
    ensures Lower(Join(labels, '.')) == Join(FoldLabels(labels), '.')
  {
    if |labels| > 1 {
      FoldJoin(labels[1..]);
      LowerConcat(labels[0], ".");
      LowerConcat(labels[0] + ".", Join(labels[1..], '.'));
      assert FoldLabels(labels)[1..] == FoldLabels(labels[1..]);
    }
  }

  /** The comparison form of a name only depends on its labels up to letter case. */
  lemma {:induction false} CanonicalFold(name: Name)
    ensures Canonical(ToAscii(name)) == TrimEnd(ToAscii(FoldLabels(name)), '.')
  {
    TrimFold(ToAscii(name));
    if name != [] {
      FoldJoin(name);
      LowerConcat(Join(name, '.'), ".");
      assert Lower(".") == ".";
    } else {
      assert FoldLabels(name) == [];
      assert Lower(".") == ".";
    }
  }

  /** Labels that spell a legal text, in any letter case, compare equal to it. */
  lemma {:induction false} CanonicalOfText(name: Name, text: string)
    requires text != "" && text[|text| - 1] != '.' && FoldLabels(name) == Split(text, '.')
    ensures Canonical(ToAscii(name)) == text
  {
    CanonicalFold(name);
    SplitParts(text, '.');
    assert (text + ".")[..|text|] == text;
    assert TrimEnd(text, '.') == text;
    assert TrimEnd(text + ".", '.') == TrimEnd(text, '.');
  }

  lemma {:induction false} JoinedLength(labels: Name)
    requires labels != []
    ensures WireLength(labels) == |Join(labels, '.')| + 2
  {
    if |labels| > 1 {
      JoinedLength(labels[1..]);
    } else {
      assert labels[1..] == [];
    }
  }

  lemma {:induction false} TextLength(text: string)
    ensures WireLength(Split(text, '.')) == |text| + 2
  {
    SplitParts(text, '.');
    JoinedLength(Split(text, '.'));
  }

  /** The octets a name may have in text: letters, digits, hyphen and underscore. */
  lemma {:induction false} NameCharCodes(c: char)
    ensures IsNameChar(c) <==>
              || 97 <= c as int <= 122 || 65 <= c as int <= 90 || 48 <= c as int <= 57
              || c as int == 45 || c as int == 95
  {
  }

  /** A legal text has at most 253 octets, and parts of 1 to 63 octets between its dots. */
  lemma {:induction false} LegalTextIff(text: string)
    ensures LegalText(text) <==>
              && |text| <= 253
              && (forall i | 0 <= i < |text| :: text[i] == '.' || IsNameChar(text[i]))
              && forall i | 0 <= i < |Split(text, '.')| :: 1 <= |Split(text, '.')[i]| <= 63
  {
    TextLength(text);
  }
}
