/**
  Name normalisation: controlled-vocabulary substitution (update_name) and
  clinic/hospital suffixing (update_clinic).

  A rule is a pair (pattern, replacement). The rule table is an explicit,
  ordered sequence: the order in which the rules are tried changes the result
  when one pattern is a prefix of another.
*/
module Normalize {
  import opened Text

  /** (pattern, replacement) */
  type Rule = (string, string)

  /** The source's rule table, in the order it is written. */
  const Mapping: seq<Rule> := [
    ("hanuiwon", "Oriental Medicine"),
    ("yeoseongbyeongwon", "Obstetrics & Gynecology"),
    ("yeoseonguiwon", "Obstetrics & Gynecology"),
    ("yeoseong", "Obstetrics & Gynecology"),
    ("soagwa", "Pediatric"),
    ("singyeongoegwa", "Neurosurgery"),
    ("singyeong", "Neurosurgery"),
    ("jeonghyeongoegwa", "Orthopedics"),
    ("gajeonguihak", "Family Medicine"),
    ("jaehwaluihakgwa", "Rehabilitation Medicine"),
    ("tongjeunguihakgwa", "Pain Medicine"),
    ("tongjeung", "Pain Medicine"),
    ("dentist", "Dental"),
    ("hopital", "Hospital"),
    ("hostpital", "Hospital")
  ]

  /** The text a match is replaced by: the replacement phrase padded with one space on each side. */
  function Pad(phrase: string): string
  {
    " " + phrase + " "
  }

  /** Substitution of an empty pattern: `rep` goes before every character and at the end. */
  function InsertEverywhere(s: string, rep: string): (r: string)
    ensures |r| == |s| + (|s| + 1) * |rep|
  {
    if s == [] then rep else rep + [s[0]] + InsertEverywhere(s[1..], rep)
  }

  /** A one-character name gets the replacement before its character and at its end. */
  lemma InsertEverywhereOne(c: char, rep: string)
    ensures InsertEverywhere([c], rep) == rep + [c] + rep
  {
    assert [c][1..] == [];
  }

  /**
    Empty-pattern substitution goes character by character: the result for
    `a + b` is that of `a` followed by that of `b` without its leading
    replacement, which the end of `a` already supplies.
  */
  lemma {:induction false} InsertEverywhereAppend(a: string, b: string, rep: string)
    ensures InsertEverywhere(a + b, rep) == InsertEverywhere(a, rep) + InsertEverywhere(b, rep)[|rep|..]
    decreases |a|
  {
    var y := InsertEverywhere(b, rep);
    if a == [] {
      assert a + b == b;
      assert y[..|rep|] == rep;
      assert rep + y[|rep|..] == y;
    } else {
      assert (a + b)[0] == a[0];
      assert (a + b)[1..] == a[1..] + b;
      InsertEverywhereAppend(a[1..], b, rep);
    }
  }

  /**
    Case-insensitive substitution of every non-overlapping occurrence of `p`
    in `s`, scanning left to right, by `rep`. An empty pattern matches at
    every position.
  */
  function ReplaceAll(s: string, p: string, rep: string): string
  {
    if |p| == 0 then InsertEverywhere(s, rep) else ReplaceFrom(s, p, rep, 0)
  }

  /** The left-to-right scan of ReplaceAll, resumed at position `k` of `s`. */
  function ReplaceFrom(s: string, p: string, rep: string, k: nat): string
    requires |p| > 0 && k <= |s|
    decreases |s| - k
  {
    if |s| - k < |p| then s[k..]
    else if MatchesAt(s, k, p) then rep + ReplaceFrom(s, p, rep, k + |p|)
    else [s[k]] + ReplaceFrom(s, p, rep, k + 1)
  }

  /** Where no occurrence starts at or after `k`, the scan copies the rest of the text. */
  lemma {:induction false} ReplaceFromNoMatch(s: string, p: string, rep: string, k: nat)
    requires |p| > 0 && k <= |s|
    requires forall j | k <= j <= |s| - |p| :: !MatchesAt(s, j, p)
    ensures ReplaceFrom(s, p, rep, k) == s[k..]
    decreases |s| - k
  {
    if |s| - k >= |p| {
      ReplaceFromNoMatch(s, p, rep, k + 1);
      assert [s[k]] + s[k + 1..] == s[k..];
    }
  }

  /**
    One step of the scan before the leftmost occurrence: a character where
    no occurrence starts is copied in front of what the rest of the scan gives.
  */
  lemma ReplaceFromSkip(s: string, p: string, rep: string, k: nat, i: nat, tail: string)
    requires |p| > 0 && k < i && i + |p| <= |s| && !MatchesAt(s, k, p)
    requires ReplaceFrom(s, p, rep, k + 1) == s[k + 1..i] + rep + tail
    ensures ReplaceFrom(s, p, rep, k) == s[k..i] + rep + tail
  {
    var a := s[k + 1..i];
    assert ReplaceFrom(s, p, rep, k) == [s[k]] + (a + rep + tail);
    assert [s[k]] + (a + rep + tail) == [s[k]] + a + rep + tail;
    assert s[k..i] == [s[k]] + a;
  }

  /**
    The scan copies the text up to the leftmost occurrence at or after `k`,
    puts `rep` in place of that occurrence and resumes right after it.
  */
  lemma {:induction false} ReplaceFromLeftmost(s: string, p: string, rep: string, k: nat, i: nat)
    requires |p| > 0 && k <= i && MatchesAt(s, i, p)
    requires forall j | k <= j < i :: !MatchesAt(s, j, p)
    ensures ReplaceFrom(s, p, rep, k) == s[k..i] + rep + ReplaceFrom(s, p, rep, i + |p|)
    decreases i - k
  {
    if k < i {
      ReplaceFromLeftmost(s, p, rep, k + 1, i);
      ReplaceFromSkip(s, p, rep, k, i, ReplaceFrom(s, p, rep, i + |p|));
    } else {
      assert s[k..i] == [];
    }
  }

  /** With no occurrence of a non-empty pattern, substitution leaves the text as it is. */
  lemma ReplaceAllNoOccurrence(s: string, p: string, rep: string)
    requires |p| > 0 && !Occurs(s, p)
    ensures ReplaceAll(s, p, rep) == s
  {
    ReplaceFromNoMatch(s, p, rep, 0);
  }

  /** Padding keeps a space-free pattern from straddling a replacement. */
  lemma PaddedJoinClear(before: string, phrase: string, rest: string, p: string)
    requires |p| > 0 && SpaceFree(p)
    requires !Occurs(before, p) && !Occurs(phrase, p) && !Occurs(rest, p)
    ensures !Occurs(before + Pad(phrase) + rest, p)
  {
    SpaceHasNoOccurrence(p);
    NoOccurrenceAcrossSpace(" ", rest, p);
    NoOccurrenceAcrossSpace(phrase, " " + rest, p);
    NoOccurrenceAcrossSpace(" ", phrase + (" " + rest), p);
    NoOccurrenceAcrossSpace(before, " " + (phrase + (" " + rest)), p);
    assert before + Pad(phrase) + rest == before + (" " + (phrase + (" " + rest)));
  }

  /** Text before the leftmost occurrence at or after `k` holds no occurrence. */
  lemma BeforeLeftmostClear(s: string, p: string, k: nat, i: nat)
    requires |p| > 0 && k <= i <= |s|
    requires forall j | k <= j < i :: !MatchesAt(s, j, p)
    ensures !Occurs(s[k..i], p)
  {
    forall j | 0 <= j <= |s[k..i]| - |p| ensures !MatchesAt(s[k..i], j, p) {
      MatchInSlice(s, k, i, p, j);
    }
  }

  /** With no occurrence at or after `k`, the rest of the text holds none. */
  lemma SuffixClear(s: string, p: string, k: nat)
    requires |p| > 0 && k <= |s|
    requires forall j | k <= j <= |s| - |p| :: !MatchesAt(s, j, p)
    ensures !Occurs(s[k..], p)
  {
    forall j | 0 <= j <= |s[k..]| - |p| ensures !MatchesAt(s[k..], j, p) {
      MatchInSuffix(s, k, p, j);
    }
  }

  /**
    For a non-empty space-free pattern that does not occur in a replacement
    phrase, substituting the padded phrase leaves no occurrence behind in the
    part the scan still has to produce.
  */
  lemma {:induction false} ReplaceFromClears(s: string, p: string, phrase: string, k: nat)
    requires |p| > 0 && SpaceFree(p) && !Occurs(phrase, p) && k <= |s|
    ensures !Occurs(ReplaceFrom(s, p, Pad(phrase), k), p)
    decreases |s| - k
  {
    if i0 :| k <= i0 <= |s| - |p| && MatchesAt(s, i0, p) {
      var i := Leftmost(s, p, k, i0);
      ReplaceFromLeftmost(s, p, Pad(phrase), k, i);
      ReplaceFromClears(s, p, phrase, i + |p|);
      BeforeLeftmostClear(s, p, k, i);
      PaddedJoinClear(s[k..i], phrase, ReplaceFrom(s, p, Pad(phrase), i + |p|), p);
    } else {
      ReplaceFromNoMatch(s, p, Pad(phrase), k);
      SuffixClear(s, p, k);
    }
  }

  /**
    For a non-empty space-free pattern that does not occur in a replacement
    phrase, substituting the padded phrase leaves no occurrence behind.
  */
  lemma ReplaceAllClears(s: string, p: string, phrase: string)
    requires |p| > 0 && SpaceFree(p) && !Occurs(phrase, p)
    ensures !Occurs(ReplaceAll(s, p, Pad(phrase)), p)
  {
    ReplaceFromClears(s, p, phrase, 0);
  }

  /** One iteration of update_name: substitute only when the pattern is found. */
  function Step(name: string, rule: Rule): string
  {
    if Occurs(name, rule.0) then ReplaceAll(name, rule.0, Pad(rule.1)) else name
  }

  /** update_name: every rule in turn, each applied to the previous rule's result. */
  function ApplyRules(name: string, rules: seq<Rule>): string
    decreases |rules|
  {
    if rules == [] then name else ApplyRules(Step(name, rules[0]), rules[1..])
  }

  /**
    A step whose pattern is non-empty, space-free and absent from its
    replacement phrase leaves no occurrence of the pattern.
  */
  lemma StepClears(name: string, rule: Rule)
    requires |rule.0| > 0 && SpaceFree(rule.0) && !Occurs(rule.1, rule.0)
    ensures !Occurs(Step(name, rule), rule.0)
  {
    if Occurs(name, rule.0) {
      ReplaceAllClears(name, rule.0, rule.1);
    }
  }

  /** A name in which no rule's pattern occurs comes out of update_name unchanged. */
  lemma {:induction false} ApplyRulesNoMatch(name: string, rules: seq<Rule>)
    requires forall k | 0 <= k < |rules| :: !Occurs(name, rules[k].0)
    ensures ApplyRules(name, rules) == name
    decreases |rules|
  {
    if rules != [] {
      assert Step(name, rules[0]) == name;
      forall k | 0 <= k < |rules[1..]| ensures !Occurs(name, rules[1..][k].0) {
        assert rules[1..][k] == rules[k + 1];
      }
      ApplyRulesNoMatch(name, rules[1..]);
    }
  }

  /** Applying the rules in two batches is applying them all. */
  lemma {:induction false} ApplyRulesAppend(name: string, a: seq<Rule>, b: seq<Rule>)
    ensures ApplyRules(name, a + b) == ApplyRules(ApplyRules(name, a), b)
    decreases |a|
  {
    if a == [] {
      assert a + b == b;
    } else {
      assert (a + b)[0] == a[0] && (a + b)[1..] == a[1..] + b;
      ApplyRulesAppend(Step(name, a[0]), a[1..], b);
    }
  }

  /** update_name, as the source writes it: a loop that reassigns the name. */
  method UpdateName(name: string, rules: seq<Rule>) returns (r: string)
    ensures r == ApplyRules(name, rules)
  {
    r := name;
    var i := 0;
    while i < |rules|
      invariant i <= |rules|
      invariant ApplyRules(r, rules[i..]) == ApplyRules(name, rules)
    {
      var pattern, replacement := rules[i].0, rules[i].1;
      if Occurs(r, pattern) {
        r := ReplaceAll(r, pattern, Pad(replacement));
      }
      assert rules[i..][1..] == rules[i + 1..];
      i := i + 1;
    }
  }

  /**
    update_clinic: a name already mentioning "clinic" or "hospital" (in any
    case) is kept; any other name gets " Clinic" appended.
  */
  function UpdateClinic(name: string): (r: string)
    ensures r == name <==> Occurs(name, "clinic") || Occurs(name, "hospital")
    ensures r != name ==> r == name + " Clinic"
  {
    if Occurs(name, "clinic") || Occurs(name, "hospital") then name else name + " Clinic"
  }

  /** Whatever update_clinic returns mentions "clinic" or "hospital". */
  lemma UpdateClinicMarks(name: string)
    ensures Occurs(UpdateClinic(name), "clinic") || Occurs(UpdateClinic(name), "hospital")
  {
    if !(Occurs(name, "clinic") || Occurs(name, "hospital")) {
      var r := name + " Clinic";
      assert MatchesAt(r, |name| + 1, "clinic") by {
        assert r[|name| + 1..] == "Clinic";
      }
    }
  }

  /** update_clinic is idempotent. */
  lemma UpdateClinicIdempotent(name: string)
    ensures UpdateClinic(UpdateClinic(name)) == UpdateClinic(name)
  {
    UpdateClinicMarks(name);
  }

  /** A rule whose pattern is non-empty, space-free and absent from its own replacement phrase. */
  predicate SelfClearing(rule: Rule)
  {
    |rule.0| > 0 && SpaceFree(rule.0) && !Occurs(rule.1, rule.0)
  }

  /** A pattern whose first letter appears nowhere it could start does not occur. */
  lemma FirstCharAbsent(s: string, p: string)
    requires |p| > 0
    requires forall i | 0 <= i <= |s| - |p| :: Lower(s[i]) != Lower(p[0])
    ensures !Occurs(s, p)
  {
    forall i | 0 <= i <= |s| - |p| ensures !MatchesAt(s, i, p) {
      assert Lower(s[i + 0]) != Lower(p[0]);
    }
  }

  /** "yeoseong" does not occur in "Obstetrics & Gynecology". */
  lemma ObstetricsLacksYeoseong()
    ensures !Occurs("Obstetrics & Gynecology", "yeoseong")
  {
    var s, p := "Obstetrics & Gynecology", "yeoseong";
    forall i | 0 <= i <= |s| - |p| ensures !MatchesAt(s, i, p) {
      if i == 14 {
        assert Lower(s[i + 1]) != Lower(p[1]);
      } else {
        assert Lower(s[i]) != Lower(p[0]);
      }
    }
  }

  /** "hopital" does not occur in "Hospital". */
  lemma HospitalLacksHopital()
    ensures !Occurs("Hospital", "hopital")
  {
    var s, p := "Hospital", "hopital";
    assert Lower(s[0 + 2]) != Lower(p[2]);
    assert Lower(s[1]) != Lower(p[0]);
  }

  /** Every rule of the source's table is self-clearing. */
  lemma TableRulesClear()
    ensures forall k | 0 <= k < |Mapping| :: SelfClearing(Mapping[k])
  {
    forall k | 0 <= k < |Mapping| ensures SelfClearing(Mapping[k]) {
      if k == 0 {
        FirstCharAbsent("Oriental Medicine", "hanuiwon");
      } else if k == 1 {
        FirstCharAbsent("Obstetrics & Gynecology", "yeoseongbyeongwon");
      } else if k == 2 {
        FirstCharAbsent("Obstetrics & Gynecology", "yeoseonguiwon");
      } else if k == 3 {
        ObstetricsLacksYeoseong();
      } else if k == 4 {
        FirstCharAbsent("Pediatric", "soagwa");
      } else if k == 5 {
        FirstCharAbsent("Neurosurgery", "singyeongoegwa");
      } else if k == 6 {
        FirstCharAbsent("Neurosurgery", "singyeong");
      } else if k == 7 {
        FirstCharAbsent("Orthopedics", "jeonghyeongoegwa");
      } else if k == 8 {
        FirstCharAbsent("Family Medicine", "gajeonguihak");
      } else if k == 9 {
        FirstCharAbsent("Rehabilitation Medicine", "jaehwaluihakgwa");
      } else if k == 10 {
        FirstCharAbsent("Pain Medicine", "tongjeunguihakgwa");
      } else if k == 11 {
        FirstCharAbsent("Pain Medicine", "tongjeung");
      } else if k == 12 {
        FirstCharAbsent("Dental", "dentist");
      } else if k == 13 {
        HospitalLacksHopital();
      } else {
        FirstCharAbsent("Hospital", "hostpital");
      }
    }
  }

  /** At its turn, each rule of the source's table removes every occurrence of its pattern. */
  lemma TableStepClears(name: string, k: nat)
    requires k < |Mapping|
    ensures !Occurs(Step(name, Mapping[k]), Mapping[k].0)
  {
    TableRulesClear();
    StepClears(name, Mapping[k]);
  }

  /** The padded obstetrics phrase does not contain "yeoseong". */
  lemma PaddedObstetricsLacksYeoseong()
    ensures !Occurs(Pad("Obstetrics & Gynecology"), "yeoseong")
  {
    ObstetricsLacksYeoseong();
    PaddedJoinClear("", "Obstetrics & Gynecology", "", "yeoseong");
    assert "" + Pad("Obstetrics & Gynecology") + "" == Pad("Obstetrics & Gynecology");
  }

  /**
    Rule order matters when one pattern is a prefix of another. With
    "yeoseongbyeongwon" tried before "yeoseong", the whole word is replaced.
  */
  lemma RuleOrderLongFirst()
    ensures ApplyRules("yeoseongbyeongwon", [Mapping[1], Mapping[3]]) == Pad("Obstetrics & Gynecology")
  {
    var s := "yeoseongbyeongwon";
    var long, short := Mapping[1], Mapping[3];
    var og := Pad("Obstetrics & Gynecology");
    assert MatchesAt(s, 0, long.0);
    assert ReplaceFrom(s, long.0, og, 0) == og + ReplaceFrom(s, long.0, og, 17);
    assert Step(s, long) == og;
    PaddedObstetricsLacksYeoseong();
    assert Step(og, short) == og;
    assert [long, short][1..] == [short] && [short][1..] == [];
    assert ApplyRules(og, [short]) == ApplyRules(og, []) == og;
    assert ApplyRules(s, [long, short]) == ApplyRules(og, [short]);
  }

  /** After the short rule, the long pattern no longer occurs. */
  lemma ShortFirstResultLacksLong()
    ensures !Occurs(Pad("Obstetrics & Gynecology") + "byeongwon", "yeoseongbyeongwon")
  {
    var t, p := Pad("Obstetrics & Gynecology") + "byeongwon", "yeoseongbyeongwon";
    forall i | 0 <= i <= |t| - |p| ensures !MatchesAt(t, i, p) {
      if i == 15 {
        assert Lower(t[i + 1]) != Lower(p[1]);
      } else {
        assert Lower(t[i]) != Lower(p[0]);
      }
    }
  }

  /** The scan for "yeoseong" copies the tail "byeongwon" of the word. */
  lemma ShortScanTail()
    ensures ReplaceFrom("yeoseongbyeongwon", "yeoseong", Pad("Obstetrics & Gynecology"), 8) == "byeongwon"
  {
    var s, p, og := "yeoseongbyeongwon", "yeoseong", Pad("Obstetrics & Gynecology");
    assert Lower(s[8]) != Lower(p[0]);
    assert Lower(s[9 + 3]) != Lower(p[3]);
    assert ReplaceFrom(s, p, og, 10) == s[10..];
    assert ReplaceFrom(s, p, og, 9) == [s[9]] + s[10..];
    assert ReplaceFrom(s, p, og, 8) == [s[8]] + ([s[9]] + s[10..]);
  }

  /** The short rule replaces the first half of "yeoseongbyeongwon" only. */
  lemma ShortStep()
    ensures Step("yeoseongbyeongwon", Mapping[3]) == Pad("Obstetrics & Gynecology") + "byeongwon"
  {
    var s, p, og := "yeoseongbyeongwon", "yeoseong", Pad("Obstetrics & Gynecology");
    assert Mapping[3] == (p, "Obstetrics & Gynecology");
    assert MatchesAt(s, 0, p);
    ShortScanTail();
    assert ReplaceFrom(s, p, og, 0) == og + ReplaceFrom(s, p, og, 8);
  }

  /**
    With "yeoseong" tried first, only its occurrence is replaced and
    "byeongwon" is left over; the longer rule then finds nothing.
  */
  lemma RuleOrderShortFirst()
    ensures ApplyRules("yeoseongbyeongwon", [Mapping[3], Mapping[1]]) == Pad("Obstetrics & Gynecology") + "byeongwon"
  {
    var s := "yeoseongbyeongwon";
    var long, short := Mapping[1], Mapping[3];
    var t := Pad("Obstetrics & Gynecology") + "byeongwon";
    ShortStep();
    ShortFirstResultLacksLong();
    assert long == ("yeoseongbyeongwon", "Obstetrics & Gynecology");
    assert Step(t, long) == t;
    assert [short, long][1..] == [long] && [long][1..] == [];
    assert ApplyRules(t, [long]) == ApplyRules(t, []) == t;
    assert ApplyRules(s, [short, long]) == ApplyRules(t, [long]);
  }

  /** The two orders give different names. */
  lemma RuleOrderMatters()
    ensures ApplyRules("yeoseongbyeongwon", [Mapping[1], Mapping[3]])
         != ApplyRules("yeoseongbyeongwon", [Mapping[3], Mapping[1]])
  {
    RuleOrderLongFirst();
    RuleOrderShortFirst();
    assert |Pad("Obstetrics & Gynecology")| < |Pad("Obstetrics & Gynecology") + "byeongwon"|;
  }
}
