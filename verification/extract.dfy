/**
  Record extraction: every `node` or `way` element of the map export becomes
  one record holding the element's attributes and a cleaned `tags` map.

  Tag collection walks the element's tags in document order and stops for
  good at the first key holding a problem character; the record is emitted
  all the same. Postal codes lose their hyphens; every other value is stored
  as it is. Keys and values are handled as character strings (their UTF-8
  re-encoding changes nothing the model observes: every problem character is
  ASCII and no byte of a multi-byte UTF-8 sequence is).
*/
module Extract {

  /** The characters that disqualify a tag key. */
  const ProblemChars: set<char> :=
    {'=', '+', '/', '&', '<', '>', ';', '\'', '"', '?', '%', '#', '$', '@', ',', '.',
     ' ', '\t', '\r', '\n'}

  /** The key of the one tag whose value is rewritten. */
  const PostcodeKey: string := "addr:postcode"

  /** The record field that holds the cleaned tags. */
  const TagsField: string := "tags"

  /** A search for the problem-character class finds something in `k`. */
  predicate HasProblemChar(k: string)
  {
    exists i | 0 <= i < |k| :: k[i] in ProblemChars
  }

  /** strip_postalcode: every '-' removed. */
  function StripPostalcode(v: string): (r: string)
    ensures '-' !in r
    ensures |r| <= |v|
  {
    if v == [] then [] else (if v[0] == '-' then [] else [v[0]]) + StripPostalcode(v[1..])
  }

  /** Stripping works character by character: it distributes over concatenation. */
  lemma {:induction false} StripPostalcodeAppend(a: string, b: string)
    ensures StripPostalcode(a + b) == StripPostalcode(a) + StripPostalcode(b)
    decreases |a|
  {
    if a == [] {
      assert a + b == b;
    } else {
      assert (a + b)[0] == a[0] && (a + b)[1..] == a[1..] + b;
      StripPostalcodeAppend(a[1..], b);
    }
  }

  /** Exactly the hyphens go: every other character keeps its number of occurrences. */
  lemma {:induction false} StripPostalcodeCounts(v: string)
    ensures multiset(StripPostalcode(v)) == multiset(v)['-' := 0]
    decreases |v|
  {
    if v != [] {
      StripPostalcodeCounts(v[1..]);
      assert v == [v[0]] + v[1..];
    }
  }

  /** A value without hyphens is kept as it is. */
  lemma {:induction false} StripPostalcodeKeeps(v: string)
    requires '-' !in v
    ensures StripPostalcode(v) == v
    decreases |v|
  {
    if v != [] {
      assert v[0] in v;
      assert '-' !in v[1..] by {
        forall c | c in v[1..] ensures c in v { }
      }
      StripPostalcodeKeeps(v[1..]);
    }
  }

  /** strip_postalcode is idempotent. */
  lemma StripPostalcodeIdempotent(v: string)
    ensures StripPostalcode(StripPostalcode(v)) == StripPostalcode(v)
  {
    StripPostalcodeKeeps(StripPostalcode(v));
  }

  /** The value stored for a tag: hyphen-stripped for the postal code, verbatim otherwise. */
  function CleanValue(k: string, v: string): string
  {
    if k == PostcodeKey then StripPostalcode(v) else v
  }

  /** A map element as the parser delivers it. */
  datatype Element = Element(kind: string, attrs: map<string, string>, tags: seq<(string, string)>)

  /** A record field: an attribute value, or the cleaned tag map. */
  datatype Value = Attr(text: string) | Tags(entries: map<string, string>)

  type Record = map<string, Value>

  /** Only nodes and ways become records. */
  predicate IsFeature(e: Element)
  {
    e.kind == "node" || e.kind == "way"
  }

  /** Index of the first tag whose key holds a problem character, or the number of tags. */
  function FirstProblem(tags: seq<(string, string)>): (n: nat)
    ensures n <= |tags|
    ensures forall j | 0 <= j < n :: !HasProblemChar(tags[j].0)
    ensures n < |tags| ==> HasProblemChar(tags[n].0)
  {
    if tags == [] || HasProblemChar(tags[0].0) then 0 else 1 + FirstProblem(tags[1..])
  }

  /** Storing the tags one after the other into a dictionary: a later key overwrites. */
  function TagDict(ts: seq<(string, string)>): map<string, string>
  {
    if ts == [] then map[]
    else
      var last := ts[|ts| - 1];
      TagDict(ts[..|ts| - 1])[last.0 := CleanValue(last.0, last.1)]
  }

  /** The tags map of a record: the tags before the first problem key, stored in order. */
  function CleanTags(tags: seq<(string, string)>): map<string, string>
  {
    TagDict(tags[..FirstProblem(tags)])
  }

  /** A key is stored exactly when some tag carries it. */
  lemma {:induction false} TagDictKeys(ts: seq<(string, string)>, k: string)
    ensures k in TagDict(ts) <==> exists j | 0 <= j < |ts| :: ts[j].0 == k
    decreases |ts|
  {
    if ts != [] {
      var init := ts[..|ts| - 1];
      TagDictKeys(init, k);
      if j :| 0 <= j < |init| && init[j].0 == k {
        assert ts[j].0 == k;
      }
      if j :| 0 <= j < |ts| && ts[j].0 == k {
        if j < |init| {
          assert init[j].0 == k;
        }
      }
    }
  }

  /** A stored key holds the cleaned value of the last tag carrying it. */
  lemma {:induction false} TagDictLast(ts: seq<(string, string)>, j: nat)
    requires j < |ts|
    requires forall j' | j < j' < |ts| :: ts[j'].0 != ts[j].0
    ensures ts[j].0 in TagDict(ts)
    ensures TagDict(ts)[ts[j].0] == CleanValue(ts[j].0, ts[j].1)
    decreases |ts|
  {
    if j < |ts| - 1 {
      var init := ts[..|ts| - 1];
      assert init[j] == ts[j];
      forall j' | j < j' < |init| ensures init[j'].0 != init[j].0 {
        assert init[j'] == ts[j'];
      }
      TagDictLast(init, j);
    }
  }

  /** Every stored value is the cleaned value of some tag with that key. */
  lemma {:induction false} TagDictValues(ts: seq<(string, string)>, k: string)
    requires k in TagDict(ts)
    ensures exists j | 0 <= j < |ts| :: ts[j].0 == k && TagDict(ts)[k] == CleanValue(k, ts[j].1)
    decreases |ts|
  {
    var init := ts[..|ts| - 1];
    if ts[|ts| - 1].0 != k {
      TagDictValues(init, k);
      var j :| 0 <= j < |init| && init[j].0 == k && TagDict(init)[k] == CleanValue(k, init[j].1);
      assert ts[j] == init[j];
    }
  }

  /**
    A key is in a record's tags exactly when a tag before the first problem
    key carries it; no key of the map holds a problem character.
  */
  lemma CleanTagsKeys(tags: seq<(string, string)>, k: string)
    ensures k in CleanTags(tags) <==> exists j | 0 <= j < FirstProblem(tags) :: tags[j].0 == k
    ensures k in CleanTags(tags) ==> !HasProblemChar(k)
  {
    var pre := tags[..FirstProblem(tags)];
    TagDictKeys(pre, k);
    if j :| 0 <= j < |pre| && pre[j].0 == k {
      assert tags[j] == pre[j];
    }
    if j :| 0 <= j < FirstProblem(tags) && tags[j].0 == k {
      assert pre[j] == tags[j];
    }
  }

  /**
    The value stored for a key is that of its last tag before the first
    problem key: hyphen-stripped for the postal code, verbatim otherwise.
  */
  lemma CleanTagsValue(tags: seq<(string, string)>, j: nat)
    requires j < FirstProblem(tags)
    requires forall j' | j < j' < FirstProblem(tags) :: tags[j'].0 != tags[j].0
    ensures tags[j].0 in CleanTags(tags)
    ensures tags[j].0 == PostcodeKey ==> CleanTags(tags)[tags[j].0] == StripPostalcode(tags[j].1)
    ensures tags[j].0 != PostcodeKey ==> CleanTags(tags)[tags[j].0] == tags[j].1
  {
    var pre := tags[..FirstProblem(tags)];
    forall j' | j < j' < |pre| ensures pre[j'].0 != pre[j].0 {
      assert pre[j'] == tags[j'];
    }
    TagDictLast(pre, j);
    assert pre[j] == tags[j];
  }

  /**
    A stored postal code holds no hyphen, and every other stored value is the
    value of a tag before the first problem key.
  */
  lemma CleanTagsStored(tags: seq<(string, string)>, k: string)
    requires k in CleanTags(tags)
    ensures k == PostcodeKey ==> '-' !in CleanTags(tags)[k]
    ensures k != PostcodeKey ==>
      exists j | 0 <= j < FirstProblem(tags) :: tags[j] == (k, CleanTags(tags)[k])
  {
    var pre := tags[..FirstProblem(tags)];
    TagDictValues(pre, k);
    var j :| 0 <= j < |pre| && pre[j].0 == k && TagDict(pre)[k] == CleanValue(k, pre[j].1);
    assert tags[j] == pre[j];
  }

  /** Tags after a problem key never matter: whatever follows them is ignored. */
  lemma {:induction false} CleanTagsIgnoresRest(tags: seq<(string, string)>, rest: seq<(string, string)>)
    requires FirstProblem(tags) < |tags|
    ensures CleanTags(tags + rest) == CleanTags(tags)
  {
    FirstProblemAppend(tags, rest);
    assert (tags + rest)[..FirstProblem(tags)] == tags[..FirstProblem(tags)];
  }

  /** The first problem key of a list is still the first once more tags are appended. */
  lemma {:induction false} FirstProblemAppend(tags: seq<(string, string)>, rest: seq<(string, string)>)
    requires FirstProblem(tags) < |tags|
    ensures FirstProblem(tags + rest) == FirstProblem(tags)
    decreases |tags|
  {
    if !HasProblemChar(tags[0].0) {
      assert (tags + rest)[1..] == tags[1..] + rest;
      FirstProblemAppend(tags[1..], rest);
    }
  }

  /** The record built from an element. */
  function RecordOf(e: Element): (r: Record)
    ensures r.Keys == e.attrs.Keys + {TagsField}
    ensures r[TagsField] == Tags(CleanTags(e.tags))
    ensures forall a | a in e.attrs && a != TagsField :: r[a] == Attr(e.attrs[a])
  {
    (map a | a in e.attrs :: Attr(e.attrs[a]))[TagsField := Tags(CleanTags(e.tags))]
  }

  /**
    The body of the extraction loop for one node or way: copy the
    attributes, then collect tags until the first problem key.
  */
  method BuildRecord(e: Element) returns (data: Record)
    ensures data == RecordOf(e)
  {
    data := map[];
    var pending := e.attrs.Keys;
    while pending != {}
      invariant pending <= e.attrs.Keys
      invariant data == map a | a in e.attrs.Keys - pending :: Attr(e.attrs[a])
      decreases pending
    {
      var a :| a in pending;
      data := data[a := Attr(e.attrs[a])];
      pending := pending - {a};
    }
    var tags: map<string, string> := map[];
    var i := 0;
    while i < |e.tags|
      invariant i <= FirstProblem(e.tags)
      invariant tags == TagDict(e.tags[..i])
    {
      var k, v := e.tags[i].0, e.tags[i].1;
      if HasProblemChar(k) {
        break;
      }
      if k == PostcodeKey {
        v := StripPostalcode(v);
      }
      assert e.tags[..i + 1][..i] == e.tags[..i];
      tags := tags[k := v];
      i := i + 1;
    }
    assert i == FirstProblem(e.tags);
    data := data[TagsField := Tags(tags)];
  }

  /** The records of a stream of elements, one per node or way, in order. */
  function Extract(elems: seq<Element>): seq<Record>
  {
    if elems == [] then []
    else (if IsFeature(elems[0]) then [RecordOf(elems[0])] else []) + Extract(elems[1..])
  }

  /**
    Extraction goes element by element: each node or way contributes exactly
    its own record, every other element nothing.
  */
  lemma {:induction false} ExtractAppend(a: seq<Element>, b: seq<Element>)
    ensures Extract(a + b) == Extract(a) + Extract(b)
    decreases |a|
  {
    if a == [] {
      assert a + b == b;
    } else {
      assert (a + b)[0] == a[0] && (a + b)[1..] == a[1..] + b;
      ExtractAppend(a[1..], b);
    }
  }

  /** A single element yields one record if it is a node or a way, none otherwise. */
  lemma ExtractOne(e: Element)
    ensures Extract([e]) == if IsFeature(e) then [RecordOf(e)] else []
  {
    assert [e][1..] == [];
  }

  /**
    Every extracted record has a tags map in which no key holds a problem
    character and the postal code, if any, holds no hyphen.
  */
  lemma {:induction false} ExtractClean(elems: seq<Element>, i: nat)
    requires i < |Extract(elems)|
    ensures TagsField in Extract(elems)[i] && Extract(elems)[i][TagsField].Tags?
    ensures forall k | k in Extract(elems)[i][TagsField].entries :: !HasProblemChar(k)
    ensures PostcodeKey in Extract(elems)[i][TagsField].entries ==>
      '-' !in Extract(elems)[i][TagsField].entries[PostcodeKey]
    decreases |elems|
  {
    var head := if IsFeature(elems[0]) then [RecordOf(elems[0])] else [];
    if i < |head| {
      var tags := CleanTags(elems[0].tags);
      forall k | k in tags ensures !HasProblemChar(k) {
        CleanTagsKeys(elems[0].tags, k);
      }
      if PostcodeKey in tags {
        CleanTagsStored(elems[0].tags, PostcodeKey);
      }
    } else {
      ExtractClean(elems[1..], i - |head|);
    }
  }

  /** get_data: the extraction loop, appending one record per node or way. */
  method GetData(elems: seq<Element>) returns (clinics: seq<Record>)
    ensures clinics == Extract(elems)
  {
    clinics := [];
    var i := 0;
    while i < |elems|
      invariant i <= |elems|
      invariant clinics + Extract(elems[i..]) == Extract(elems)
    {
      var e := elems[i];
      assert elems[i..] == [e] + elems[i + 1..];
      if IsFeature(e) {
        var data := BuildRecord(e);
        clinics := clinics + [data];
      }
      i := i + 1;
    }
  }
}
