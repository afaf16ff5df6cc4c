/** Matching a display by name or description: exactly, by regular expression, or fuzzily. */
module Names {
  import opened Seqs

  /** regcomp and regexec: which patterns compile, and which subjects they match. */
  datatype Regex = Regex(compiles: string -> bool, matches: (string, string) -> bool)

  datatype Name = Name(name: Option<string>, description: Option<string>)

  function Lower(c: char): char {
    if 'A' <= c <= 'Z' then (c as int + 32) as char else c
  }

  predicate SameNoCase(a: string, b: string) {
    |a| == |b| && forall i | 0 <= i < |a| :: Lower(a[i]) == Lower(b[i])
  }

  predicate OccursAt(s: string, part: string, i: int) {
    0 <= i <= |s| - |part| && SameNoCase(s[i..i + |part|], part)
  }

  /** strcasestr */
  predicate ContainsNoCase(s: string, part: string) {
    exists i | 0 <= i <= |s| :: OccursAt(s, part, i)
  }

  /** A NAME_DESC that is to be read as a regular expression. */
  predicate IsRegex(nameDesc: string) {
    |nameDesc| >= 2 && nameDesc[0] == '!'
  }

  predicate RegexMatches(rx: Regex, subject: string, pattern: string) {
    rx.compiles(pattern) && rx.matches(subject, pattern)
  }

  predicate MatchesExact(h: Name, nameDesc: string) {
    h.name == Some(nameDesc) || h.description == Some(nameDesc)
  }

  predicate MatchesRegex(rx: Regex, h: Name, nameDesc: string) {
    && IsRegex(nameDesc)
    && var pattern := nameDesc[1..];
       || (h.name.Some? && RegexMatches(rx, h.name.value, pattern))
       || (h.description.Some? && RegexMatches(rx, h.description.value, pattern))
  }

  predicate MatchesFuzzy(h: Name, nameDesc: string) {
    && (nameDesc == "" || nameDesc[0] != '!')
    && (|| (h.name.Some? && ContainsNoCase(h.name.value, nameDesc))
        || (h.description.Some? && ContainsNoCase(h.description.value, nameDesc)))
  }

  /** head_matches_name_desc */
  predicate Matches(rx: Regex, h: Name, nameDesc: string) {
    MatchesExact(h, nameDesc) || MatchesRegex(rx, h, nameDesc) || MatchesFuzzy(h, nameDesc)
  }

  lemma ContainsItself(s: string)
    ensures ContainsNoCase(s, s)
  {
    assert s[0..0 + |s|] == s;
    assert OccursAt(s, s, 0);
  }

  /** Some part of s is the given one but for the case of ASCII letters. */
  ghost predicate HasPart(s: string, part: string) {
    exists before: string, middle: string, behind: string ::
      s == before + middle + behind && |middle| == |part|
      && forall i | 0 <= i < |part| :: middle[i] == part[i] || Swapped(middle[i], part[i])
  }

  /** The upper and the lower case of a letter. */
  predicate Swapped(a: char, b: char) {
    ('A' <= a <= 'Z' && b as int == a as int + 32) || ('A' <= b <= 'Z' && a as int == b as int + 32)
  }

  lemma LowerIs(a: char, b: char)
    ensures Lower(a) == Lower(b) <==> a == b || Swapped(a, b)
  {
  }

  lemma ContainsIff(s: string, part: string)
    ensures ContainsNoCase(s, part) <==> HasPart(s, part)
  {
    if i :| 0 <= i <= |s| && OccursAt(s, part, i) {
      var middle := s[i..i + |part|];
      forall k | 0 <= k < |part| ensures middle[k] == part[k] || Swapped(middle[k], part[k]) {
        LowerIs(middle[k], part[k]);
      }
      assert s == s[..i] + middle + s[i + |part|..];
    }
    if before: string, middle: string, behind: string :|
      s == before + middle + behind && |middle| == |part|
      && forall i | 0 <= i < |part| :: middle[i] == part[i] || Swapped(middle[i], part[i])
    {
      forall k | 0 <= k < |part| ensures Lower(middle[k]) == Lower(part[k]) {
        LowerIs(middle[k], part[k]);
      }
      assert s[|before|..|before| + |part|] == middle;
      assert OccursAt(s, part, |before|);
    }
  }

  /**
   Main result: what a NAME_DESC matches. Without a leading '!', the displays whose name or description has it as
   a part, whatever the case; with one, those with a match of the regular expression behind it, or that are
   called just that, '!' included.
   */
  lemma MatchesIff(rx: Regex, h: Name, nameDesc: string)
    ensures Matches(rx, h, nameDesc) <==>
      if nameDesc == "" || nameDesc[0] != '!' then
        (h.name.Some? && HasPart(h.name.value, nameDesc)) || (h.description.Some? && HasPart(h.description.value, nameDesc))
      else
        || h.name == Some(nameDesc) || h.description == Some(nameDesc)
        || (|nameDesc| >= 2 && rx.compiles(nameDesc[1..])
            && ((h.name.Some? && rx.matches(h.name.value, nameDesc[1..]))
                || (h.description.Some? && rx.matches(h.description.value, nameDesc[1..]))))
  {
    hide HasPart, ContainsNoCase;
    if h.name.Some? {
      ContainsIff(h.name.value, nameDesc);
    }
    if h.description.Some? {
      ContainsIff(h.description.value, nameDesc);
    }
    ContainsItself(nameDesc);
    ContainsIff(nameDesc, nameDesc);
  }
}
