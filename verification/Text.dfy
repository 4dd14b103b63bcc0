/** ASCII text as the DNS code uses it: case folding, suffixes, and splitting on a separator.

    A `char` stands for one octet, so `|s|` is a length in octets. */
module Text {
  import opened Wrappers

  function LowerChar(c: char): char {
    if 'A' <= c <= 'Z' then (c as int + 32) as char else c
  }

  function Lower(s: string): string {
    seq(|s|, i requires 0 <= i < |s| => LowerChar(s[i]))
  }

  /** A text without upper-case letters. */
  predicate IsLower(s: string) {
    forall i | 0 <= i < |s| :: LowerChar(s[i]) == s[i]
  }

  predicate EndsWith(s: string, suffix: string) {
    |suffix| <= |s| && s[|s| - |suffix|..] == suffix
  }

  function StripSuffix(s: string, suffix: string): Option<string> {
    if EndsWith(s, suffix) then Some(s[..|s| - |suffix|]) else None
  }

  function TrimEnd(s: string, c: char): string {
    if s != "" && s[|s| - 1] == c then TrimEnd(s[..|s| - 1], c) else s
  }

  /** The pieces of `s` between separators; the empty text has one, empty, piece. */
  function Split(s: string, sep: char): (parts: seq<string>)
    ensures |parts| >= 1
  {
    if s == "" then [""]
    else if s[0] == sep then [""] + Split(s[1..], sep)
    else
      var rest := Split(s[1..], sep);
      [[s[0]] + rest[0]] + rest[1..]
  }

  function Join(parts: seq<string>, sep: char): string
    requires parts != []
  {
    if |parts| == 1 then parts[0] else parts[0] + [sep] + Join(parts[1..], sep)
  }

  ghost predicate SeparatorFree(parts: seq<string>, sep: char) {
    forall p | p in parts :: sep !in p
  }

  /** Folding in octets: 32 is added to those from 65 to 90, and the others stay. */
  lemma {:induction false} LowerCharCodes(c: char)
    ensures 65 <= c as int <= 90 ==> LowerChar(c) as int == c as int + 32
    ensures c as int < 65 || 90 < c as int ==> LowerChar(c) == c
  {
  }

  lemma {:induction false} LowerConcat(a: string, b: string)
    ensures Lower(a + b) == Lower(a) + Lower(b)
  {
  }

  lemma {:induction false} LowerIff(s: string)
    ensures IsLower(s) <==> Lower(s) == s
  {
    if Lower(s) == s {
      assert forall i | 0 <= i < |s| :: Lower(s)[i] == s[i];
    }
  }

  lemma {:induction false} LowerTwice(s: string)
    ensures Lower(Lower(s)) == Lower(s)
  {
  }

  /** Folding neither creates nor destroys a separator that is not a letter. */
  lemma {:induction false} LowerKeeps(s: string, c: char)
    requires LowerChar(c) == c && forall d: char :: LowerChar(d) == c ==> d == c
    ensures c in Lower(s) <==> c in s
  {
    if c in s {
      var i :| 0 <= i < |s| && s[i] == c;
      assert Lower(s)[i] == c;
    }
  }

  lemma {:induction false} ConsPart(c: char, front: seq<string>, back: seq<string>)
    requires front != []
    ensures [[c] + (front + back)[0]] + (front + back)[1..] == [[c] + front[0]] + front[1..] + back
    ensures [""] + (front + back) == [""] + front + back
  {
  }

  lemma {:induction false} SplitConcat(a: string, b: string, sep: char)
    ensures Split(a + [sep] + b, sep) == Split(a, sep) + Split(b, sep)
  {
    if a == "" {
      assert a + [sep] + b == [sep] + b;
      assert ([sep] + b)[1..] == b;
    } else {
      var s := a + [sep] + b;
      SplitConcat(a[1..], b, sep);
      assert s[1..] == a[1..] + [sep] + b && s[0] == a[0];
      ConsPart(a[0], Split(a[1..], sep), Split(b, sep));
    }
  }

  lemma {:induction false} SplitPlain(s: string, sep: char)
    requires sep !in s
    ensures Split(s, sep) == [s]
  {
    if s != "" {
      SplitPlain(s[1..], sep);
      assert [s[0]] + s[1..] == s;
    }
  }

  lemma {:induction false} SplitParts(s: string, sep: char)
    ensures SeparatorFree(Split(s, sep), sep)
    ensures Join(Split(s, sep), sep) == s
  {
    if s != "" {
      SplitParts(s[1..], sep);
      var rest := Split(s[1..], sep);
      if s[0] == sep {
        assert Split(s, sep)[1..] == rest;
        assert "" + [sep] + s[1..] == s;
      } else if |rest| > 1 {
        assert Split(s, sep)[1..] == rest[1..];
        assert [s[0]] + rest[0] + [sep] + Join(rest[1..], sep) == [s[0]] + (rest[0] + [sep] + Join(rest[1..], sep));
      }
    }
  }

  lemma {:induction false} SplitJoin(parts: seq<string>, sep: char)
    requires parts != [] && SeparatorFree(parts, sep)
    ensures Split(Join(parts, sep), sep) == parts
  {
    SplitPlain(parts[0], sep);
    if |parts| > 1 {
      SplitConcat(parts[0], Join(parts[1..], sep), sep);
      SplitJoin(parts[1..], sep);
    }
  }

  lemma {:induction false} JoinConcat(a: seq<string>, b: seq<string>, sep: char)
    requires a != [] && b != []
    ensures Join(a + b, sep) == Join(a, sep) + [sep] + Join(b, sep)
  {
    if |a| == 1 {
      assert (a + b)[1..] == b;
    } else {
      JoinConcat(a[1..], b, sep);
      assert (a + b)[1..] == a[1..] + b;
    }
  }

  /** What follows the last trimmed character survives; what is trimmed is only that character. */
  lemma {:induction false} TrimEndSpec(s: string, c: char)
    ensures var t := TrimEnd(s, c);
            t <= s && (t == "" || t[|t| - 1] != c) && forall i | |t| <= i < |s| :: s[i] == c
  {
    if s != "" && s[|s| - 1] == c {
      TrimEndSpec(s[..|s| - 1], c);
    }
  }

  /** Trimming stops in front of the trailing run of the character. */
  lemma {:induction false} TrimEndAt(s: string, c: char, n: nat)
    requires n <= |s| && (forall i | n <= i < |s| :: s[i] == c) && (n > 0 ==> s[n - 1] != c)
    ensures TrimEnd(s, c) == s[..n]
  {
    if |s| > n {
      TrimEndAt(s[..|s| - 1], c, n);
    }
  }

  lemma {:induction false} TrimEndBehind(front: string, s: string, c: char)
    requires TrimEnd(s, c) != ""
    ensures TrimEnd(front + s, c) == front + TrimEnd(s, c)
  {
    var trimmed := TrimEnd(s, c);
    TrimEndSpec(s, c);
    TrimEndAt(front + s, c, |front| + |trimmed|);
  }

  /** The first `n` characters spell `name` in some letter case, and only dots follow. */
  predicate SpelledUpTo(text: string, n: nat, name: string) {
    n <= |text| && Lower(text[..n]) == name && forall i | n <= i < |text| :: text[i] == '.'
  }

  lemma {:induction false} SpelledIsTrimmed(text: string, n: nat, name: string)
    requires SpelledUpTo(text, n, name) && name != "" && name[|name| - 1] != '.'
    ensures TrimEnd(text, '.') == text[..n]
  {
    assert name[n - 1] == LowerChar(text[n - 1]);
    assert LowerChar('.') == '.';
    TrimEndAt(text, '.', n);
  }

  lemma {:induction false} TrimmedIsSpelled(text: string)
    ensures SpelledUpTo(text, |TrimEnd(text, '.')|, Lower(TrimEnd(text, '.')))
  {
    TrimEndSpec(text, '.');
  }
}
