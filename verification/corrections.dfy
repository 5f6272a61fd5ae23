/**
  Correction selection (update_hospital_name): for each hospital document,
  run the vocabulary substitution on its English name; only when that
  changed the name is the clinic suffix rule applied and the document's id
  mapped to the new name.
*/
module Corrections {
  import opened Text
  import opened Normalize

  /** The two fields of a stored hospital document the selection reads: `id` and `tags["name:en"]`. */
  datatype Hospital = Hospital(id: string, nameEn: string)

  /** The substitution rules change this document's name. */
  predicate Changed(h: Hospital, rules: seq<Rule>)
  {
    ApplyRules(h.nameEn, rules) != h.nameEn
  }

  /** The corrected name of a document whose name the rules change. */
  function Corrected(h: Hospital, rules: seq<Rule>): string
  {
    UpdateClinic(ApplyRules(h.nameEn, rules))
  }

  /** The id -> new name map built over the documents in order; a later document overwrites. */
  function Selection(hs: seq<Hospital>, rules: seq<Rule>): map<string, string>
  {
    if hs == [] then map[]
    else
      var h := hs[|hs| - 1];
      var prev := Selection(hs[..|hs| - 1], rules);
      if Changed(h, rules) then prev[h.id := Corrected(h, rules)] else prev
  }

  /** An id is selected exactly when some document with that id has its name changed by the rules. */
  lemma {:induction false} SelectionKeys(hs: seq<Hospital>, rules: seq<Rule>, id: string)
    ensures id in Selection(hs, rules) <==>
      exists j | 0 <= j < |hs| :: hs[j].id == id && Changed(hs[j], rules)
    decreases |hs|
  {
    if hs != [] {
      var init := hs[..|hs| - 1];
      SelectionKeys(init, rules, id);
      if j :| 0 <= j < |init| && init[j].id == id && Changed(init[j], rules) {
        assert hs[j] == init[j];
      }
      if j :| 0 <= j < |hs| && hs[j].id == id && Changed(hs[j], rules) {
        if j < |init| {
          assert init[j] == hs[j];
        }
      }
    }
  }

  /**
    The name selected for an id is the corrected name of the last document
    with that id whose name the rules change.
  */
  lemma {:induction false} SelectionValue(hs: seq<Hospital>, rules: seq<Rule>, j: nat)
    requires j < |hs| && Changed(hs[j], rules)
    requires forall j' | j < j' < |hs| :: hs[j'].id == hs[j].id ==> !Changed(hs[j'], rules)
    ensures hs[j].id in Selection(hs, rules)
    ensures Selection(hs, rules)[hs[j].id] == Corrected(hs[j], rules)
    decreases |hs|
  {
    if j < |hs| - 1 {
      var init := hs[..|hs| - 1];
      assert init[j] == hs[j];
      forall j' | j < j' < |init| ensures init[j'].id == init[j].id ==> !Changed(init[j'], rules) {
        assert init[j'] == hs[j'];
      }
      SelectionValue(init, rules, j);
    }
  }

  /** Ids are unique across the documents. */
  predicate UniqueIds(hs: seq<Hospital>)
  {
    forall a, b | 0 <= a < b < |hs| :: hs[a].id != hs[b].id
  }

  /**
    With unique ids, a document is selected exactly when the rules change its
    name, and then with that name passed through the clinic suffix rule.
  */
  lemma SelectionUnique(hs: seq<Hospital>, rules: seq<Rule>, j: nat)
    requires UniqueIds(hs) && j < |hs|
    ensures hs[j].id in Selection(hs, rules) <==> Changed(hs[j], rules)
    ensures Changed(hs[j], rules) ==>
      Selection(hs, rules)[hs[j].id] == UpdateClinic(ApplyRules(hs[j].nameEn, rules))
  {
    SelectionKeys(hs, rules, hs[j].id);
    if Changed(hs[j], rules) {
      SelectionValue(hs, rules, j);
    }
  }

  /**
    A document whose name no rule's pattern occurs in is never selected,
    whether or not its name already mentions a clinic or a hospital.
  */
  lemma UntouchedNotSelected(hs: seq<Hospital>, rules: seq<Rule>, j: nat)
    requires UniqueIds(hs) && j < |hs|
    requires forall k | 0 <= k < |rules| :: !Occurs(hs[j].nameEn, rules[k].0)
    ensures hs[j].id !in Selection(hs, rules)
  {
    ApplyRulesNoMatch(hs[j].nameEn, rules);
    SelectionUnique(hs, rules, j);
  }

  /** update_hospital_name: a loop that fills the id -> new name map. */
  method UpdateHospitalName(hs: seq<Hospital>, rules: seq<Rule>) returns (data: map<string, string>)
    ensures data == Selection(hs, rules)
  {
    data := map[];
    var i := 0;
    while i < |hs|
      invariant i <= |hs|
      invariant data == Selection(hs[..i], rules)
    {
      var h := hs[i];
      var oldName := h.nameEn;
      var newName := UpdateName(oldName, rules);
      assert hs[..i + 1][..i] == hs[..i];
      if oldName != newName {
        newName := UpdateClinic(newName);
        data := data[h.id := newName];
      }
      i := i + 1;
    }
    assert hs[..i] == hs;
  }
}
