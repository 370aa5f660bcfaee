/** The comparison of `compare_parity_schemas.py`: which divergences it reports. */
module ParityCompare {
  import opened Wrappers
  import opened StableSort
  import opened Canonical

  const REQUIRED_FIELDS: seq<(string, seq<string>)> := [
    ("queries", ["name", "sql_source", "returns_list", "inject_params", "cache_ttl_seconds", "requires_role"]),
    ("mutations", ["name", "sql_source", "operation", "inject_params", "invalidates_views", "invalidates_fact_tables"]),
    ("types", ["name", "sql_source", "is_error"])]

  predicate IsDict(j: Json) {
    j.Node? && j.kind.Object?
  }

  function Find(members: seq<Json>, key: string): Option<Json> {
    if members == [] then None
    else if members[0].Member? && members[0].key == key then Some(members[0].value)
    else Find(members[1..], key)
  }

  /** `item.get(key)`; only dicts are ever asked. */
  function Get(item: Json, key: string): Json {
    if IsDict(item) then Find(item.children, key).GetOr(Null) else Null
  }

  /** An item of an object section takes its key as name, unless it has one. */
  function Named(name: string, item: Json): Json
    requires IsDict(item)
  {
    if Find(item.children, "name").Some? then item
    else Node(Object, [Member("name", Str(name))] + item.children)
  }

  /** The items of a section, given as an array or as an object by name. */
  function Items(kind: Kind, children: seq<Json>): seq<Json> {
    if children == [] then []
    else
      var last, before := children[|children| - 1], Items(kind, children[..|children| - 1]);
      if kind.Array? && IsDict(last) then before + [last]
      else if kind.Object? && last.Member? && IsDict(last.value) then before + [Named(last.key, last.value)]
      else before
  }

  function SectionItems(section: Json): seq<Json> {
    if section.Node? then Items(section.kind, section.children) else []
  }

  method SectionToList(section: Json) returns (result: seq<Json>)
    ensures result == SectionItems(section)
  {
    result := [];
    if section.Node? {
      var children := section.children;
      for i := 0 to |children|
        invariant result == Items(section.kind, children[..i])
      {
        assert children[..i + 1][..i] == children[..i];
        var child := children[i];
        if section.kind.Array? && IsDict(child) {
          result := result + [child];
        } else if section.kind.Object? && child.Member? && IsDict(child.value) {
          var item := child.value;
          if Find(item.children, "name").None? {
            item := Node(Object, [Member("name", Str(child.key))] + item.children);
          }
          result := result + [item];
        }
      }
      assert children[..|children|] == children;
    }
  }

  predicate ValuesFor(members: seq<Json>, fields: seq<string>) {
    |members| == |fields| && forall i :: 0 <= i < |members| ==> members[i].Member? && members[i].key == fields[i]
  }

  /** The values of the fields, in the order of the fields. */
  function FieldsOf(item: Json, fields: seq<string>): (r: seq<Json>)
    ensures ValuesFor(r, fields)
  {
    seq(|fields|, i requires 0 <= i < |fields| => Member(fields[i], Get(item, fields[i])))
  }

  function NameOf(item: Json): string {
    if Get(item, "name").Str? then Get(item, "name").s else ""
  }

  /** By name, the fields of every named item; of two items with one name the later counts. */
  function Extracted(items: seq<Json>, fields: seq<string>): (r: map<string, seq<Json>>)
    ensures forall name :: name in r ==> ValuesFor(r[name], fields)
  {
    if items == [] then map[]
    else
      var last, before := items[|items| - 1], Extracted(items[..|items| - 1], fields);
      if NameOf(last) == "" then before else before[NameOf(last) := FieldsOf(last, fields)]
  }

  function Extract(schema: Json, category: string, fields: seq<string>): (r: map<string, seq<Json>>)
    requires IsDict(schema)
    ensures forall name :: name in r ==> ValuesFor(r[name], fields)
  {
    Extracted(SectionItems(Find(schema.children, category).GetOr(Node(Array, []))), fields)
  }

  method ExtractFields(schema: Json, category: string, fields: seq<string>) returns (results: map<string, seq<Json>>)
    requires IsDict(schema)
    ensures results == Extract(schema, category, fields)
  {
    var items := SectionToList(Find(schema.children, category).GetOr(Node(Array, [])));
    results := map[];
    for i := 0 to |items|
      invariant results == Extracted(items[..i], fields)
    {
      assert items[..i + 1][..i] == items[..i];
      var key := NameOf(items[i]);
      if key != "" {
        results := results[key := FieldsOf(items[i], fields)];
      }
    }
    assert items[..|items|] == items;
  }

  // ----- Array and object sections -----

  /** The same item in an object section: under its name, which it need not repeat. */
  ghost predicate SameItem(listed: Json, keyed: Json) {
    && IsDict(listed) && NameOf(listed) != ""
    && keyed.Member? && keyed.key == NameOf(listed) && IsDict(keyed.value)
    && (Find(keyed.value.children, "name").None? || keyed.value == listed)
    && forall f: string :: f != "name" ==> Find(keyed.value.children, f) == Find(listed.children, f)
  }

  lemma SameItemSameFields(listed: Json, keyed: Json, fields: seq<string>)
    requires SameItem(listed, keyed)
    ensures var item := Named(keyed.key, keyed.value);
            NameOf(item) == NameOf(listed) && FieldsOf(item, fields) == FieldsOf(listed, fields)
  {
    var item := Named(keyed.key, keyed.value);
    forall f: string
      ensures Get(item, f) == Get(listed, f)
    {
      if Find(keyed.value.children, "name").None? {
        assert item.children[1..] == keyed.value.children;
      }
    }
  }

  /** Both section formats yield the same fields for the same items. */
  lemma {:induction false} FormatsAgree(listed: seq<Json>, keyed: seq<Json>, fields: seq<string>)
    requires |listed| == |keyed| && forall i :: 0 <= i < |listed| ==> SameItem(listed[i], keyed[i])
    ensures Extracted(Items(Array, listed), fields) == Extracted(Items(Object, keyed), fields)
    decreases |listed|
  {
    if listed != [] {
      var n := |listed| - 1;
      FormatsAgree(listed[..n], keyed[..n], fields);
      SameItemSameFields(listed[n], keyed[n], fields);
      ExtractedAppends(Items(Array, listed[..n]), listed[n], fields);
      ExtractedAppends(Items(Object, keyed[..n]), Named(keyed[n].key, keyed[n].value), fields);
    }
  }

  lemma ExtractedAppends(items: seq<Json>, item: Json, fields: seq<string>)
    ensures Extracted(items + [item], fields) ==
            if NameOf(item) == "" then Extracted(items, fields)
            else Extracted(items, fields)[NameOf(item) := FieldsOf(item, fields)]
  {
    assert (items + [item])[..|items|] == items;
  }

  // ----- Divergences -----

  /** The fields that are not null in the reference, with the values `values` has for them. */
  function Filtered(reference: seq<Json>, values: seq<Json>): seq<Json>
    requires |reference| == |values|
  {
    if reference == [] then []
    else
      (if reference[0].Member? && reference[0].value != Null then [values[0]] else []) +
      Filtered(reference[1..], values[1..])
  }

  predicate Diverges(str: Renderer, reference: seq<Json>, candidate: seq<Json>)
    requires |reference| == |candidate|
  {
    Normalise(str, Node(Object, Filtered(reference, reference))) !=
    Normalise(str, Node(Object, Filtered(reference, candidate)))
  }

  ghost predicate NoFieldTwice(fields: seq<string>) {
    forall i, j :: 0 <= i < j < |fields| ==> fields[i] != fields[j]
  }

  lemma {:induction false} FilteredHas(a: seq<Json>, v: seq<Json>, i: nat)
    requires |a| == |v| && i < |a| && a[i].Member? && a[i].value != Null
    ensures v[i] in Filtered(a, v)
    decreases |a|
  {
    if i > 0 {
      FilteredHas(a[1..], v[1..], i - 1);
    }
  }

  lemma {:induction false} FilteredFrom(a: seq<Json>, v: seq<Json>, m: Json) returns (i: nat)
    requires |a| == |v| && m in Filtered(a, v)
    ensures i < |a| && v[i] == m
    decreases |a|
  {
    if a[0].Member? && a[0].value != Null && m == v[0] {
      i := 0;
    } else {
      i := FilteredFrom(a[1..], v[1..], m);
      i := i + 1;
    }
  }

  /** Equal normal forms field by field make equal normal forms of the filtered objects. */
  lemma {:induction false} FilteredNormalsEqual(str: Renderer, a: seq<Json>, b: seq<Json>)
    requires |a| == |b|
    requires forall i :: 0 <= i < |a| && a[i].Member? && a[i].value != Null ==> Normalise(str, a[i]) == Normalise(str, b[i])
    ensures NormaliseAll(str, Filtered(a, a)) == NormaliseAll(str, Filtered(a, b))
    decreases |a|
  {
    if a != [] {
      FilteredNormalsEqual(str, a[1..], b[1..]);
      var x, y := Filtered(a[1..], a[1..]), Filtered(a[1..], b[1..]);
      if a[0].Member? && a[0].value != Null {
        NormaliseCons(str, a[0], x);
        NormaliseCons(str, b[0], y);
      } else {
        assert [] + x == x && [] + y == y;
      }
    }
  }

  lemma NormaliseCons(str: Renderer, m: Json, rest: seq<Json>)
    ensures NormaliseAll(str, [m] + rest) == [Normalise(str, m)] + NormaliseAll(str, rest)
  {
    assert ([m] + rest)[1..] == rest;
  }

  lemma EqualNormalsShareMembers(str: Renderer, x: seq<Json>, y: seq<Json>, p: nat) returns (q: nat)
    requires Normalise(str, Node(Object, x)) == Normalise(str, Node(Object, y)) && p < |x|
    ensures q < |y| && Normalise(str, y[q]) == Normalise(str, x[p])
  {
    EqualSortsShareElements(Leq(str, Object), NormaliseAll(str, x), NormaliseAll(str, y), p);
    q :| 0 <= q < |y| && NormaliseAll(str, y)[q] == NormaliseAll(str, x)[p];
  }

  lemma {:induction false} EqualSortsShareElements(leq: (Json, Json) -> bool, ns: seq<Json>, ms: seq<Json>, p: nat)
    requires Sort(leq, ns) == Sort(leq, ms) && p < |ns|
    ensures ns[p] in ms
  {
    SortPermutes(leq, ns);
    SortPermutes(leq, ms);
  }

  /** And the other way round: a field's normal form can be read off the object's. */
  lemma NormalFieldsEqual(str: Renderer, a: seq<Json>, b: seq<Json>, fields: seq<string>, i: nat)
    requires ValuesFor(a, fields) && ValuesFor(b, fields) && NoFieldTwice(fields)
    requires !Diverges(str, a, b) && i < |a| && a[i].value != Null
    ensures Normalise(str, a[i]) == Normalise(str, b[i])
  {
    FilteredHas(a, a, i);
    var p :| 0 <= p < |Filtered(a, a)| && Filtered(a, a)[p] == a[i];
    var q := EqualNormalsShareMembers(str, Filtered(a, a), Filtered(a, b), p);
    var j := FilteredFrom(a, b, Filtered(a, b)[q]);
    NormalsKeepKeys(str, a[i], b[j]);
    assert fields[i] == fields[j];
  }

  lemma NormalsKeepKeys(str: Renderer, m: Json, n: Json)
    requires m.Member? && n.Member? && Normalise(str, m) == Normalise(str, n)
    ensures m.key == n.key
  {
  }

  lemma SameIffEqualNormals(str: Renderer, a: Json, b: Json)
    requires Valid(a) && Discriminating(str, a)
    ensures Same(a, b) <==> Normalise(str, a) == Normalise(str, b)
  {
    if Same(a, b) {
      SameHaveEqualNormals(str, a, b);
    }
    if Normalise(str, a) == Normalise(str, b) {
      EqualNormalsAreSame(str, a, b);
    }
  }

  /** A pair of items diverges exactly when some field that the reference has differs by more
      than the order of lists and members, wherever the reference's siblings are told apart. */
  lemma DivergesExactly(str: Renderer, a: seq<Json>, b: seq<Json>, fields: seq<string>)
    requires ValuesFor(a, fields) && ValuesFor(b, fields) && NoFieldTwice(fields)
    requires forall i :: 0 <= i < |a| ==> Valid(a[i].value) && Discriminating(str, a[i].value)
    ensures Diverges(str, a, b) <==> exists i :: 0 <= i < |a| && a[i].value != Null && !Same(a[i].value, b[i].value)
  {
    forall i | 0 <= i < |a|
      ensures Same(a[i].value, b[i].value) <==> Normalise(str, a[i].value) == Normalise(str, b[i].value)
    {
      SameIffEqualNormals(str, a[i].value, b[i].value);
    }
    if !Diverges(str, a, b) {
      forall i | 0 <= i < |a| && a[i].value != Null
        ensures Same(a[i].value, b[i].value)
      {
        NormalFieldsEqual(str, a, b, fields, i);
      }
    } else if forall i :: 0 <= i < |a| && a[i].value != Null ==> Same(a[i].value, b[i].value) {
      FilteredNormalsEqual(str, a, b);
    }
  }

  /** Two items by one name in two files, whose values for the category's fields diverge. */
  predicate Reported(str: Renderer, reference: Json, candidate: Json, entry: (string, seq<string>), name: string)
    requires IsDict(reference) && IsDict(candidate)
  {
    var refs, cands := Extract(reference, entry.0, entry.1), Extract(candidate, entry.0, entry.1);
    name in refs && name in cands && Diverges(str, refs[name], cands[name])
  }

  lemma RequiredFieldsAreDistinct(k: nat)
    requires k < |REQUIRED_FIELDS|
    ensures NoFieldTwice(REQUIRED_FIELDS[k].1)
  {
    assert REQUIRED_FIELDS[k] in REQUIRED_FIELDS;
  }

  /** Which fields of which categories are compared. */
  lemma ComparedFields(category: string, f: string)
    ensures (exists k :: 0 <= k < |REQUIRED_FIELDS| && REQUIRED_FIELDS[k].0 == category && f in REQUIRED_FIELDS[k].1) <==>
            (category in {"queries", "mutations", "types"} && f in {"name", "sql_source"}) ||
            (category in {"queries", "mutations"} && f == "inject_params") ||
            (category == "queries" && f in {"returns_list", "cache_ttl_seconds", "requires_role"}) ||
            (category == "mutations" && f in {"operation", "invalidates_views", "invalidates_fact_tables"}) ||
            (category == "types" && f == "is_error")
  {
    assert REQUIRED_FIELDS[0].0 == "queries" && REQUIRED_FIELDS[1].0 == "mutations" && REQUIRED_FIELDS[2].0 == "types";
  }

  /** What a report means: an item in both files, and a field that the first one has and that
      differs by more than order. */
  lemma {:induction false} ReportedExactly(str: Renderer, reference: Json, candidate: Json,
      entry: (string, seq<string>), name: string)
    requires IsDict(reference) && IsDict(candidate) && NoFieldTwice(entry.1)
    requires var refs := Extract(reference, entry.0, entry.1);
             name in refs ==> forall i :: 0 <= i < |entry.1| ==>
               Valid(refs[name][i].value) && Discriminating(str, refs[name][i].value)
    ensures var refs, cands := Extract(reference, entry.0, entry.1), Extract(candidate, entry.0, entry.1);
            Reported(str, reference, candidate, entry, name) <==>
            name in refs && name in cands &&
            exists i :: 0 <= i < |entry.1| && refs[name][i].value != Null &&
              !Same(refs[name][i].value, cands[name][i].value)
  {
    var refs, cands := Extract(reference, entry.0, entry.1), Extract(candidate, entry.0, entry.1);
    if name in refs && name in cands {
      DivergesExactly(str, refs[name], cands[name], entry.1);
    }
  }

  // ----- Reports, by the members of the files -----

  /** The child of a section is an item of this name with these members: it has the name as a
      member, or, in an object section, lacks one and has the name as key. */
  ghost predicate Carries(kind: Kind, child: Json, name: string, members: seq<Json>) {
    match kind
    case Array => child == Node(Object, members) && Member("name", Str(name)) in members
    case Object =>
      && child.Member? && child.value == Node(Object, members)
      && (Member("name", Str(name)) in members || (child.key == name && forall v :: Member("name", v) !in members))
  }

  /** The last item of this name has these members. */
  ghost predicate Listed(kind: Kind, children: seq<Json>, name: string, members: seq<Json>) {
    exists i :: 0 <= i < |children| && Carries(kind, children[i], name, members) && LastOf(kind, children, name, i)
  }

  ghost predicate LastOf(kind: Kind, children: seq<Json>, name: string, i: nat) {
    forall j, others :: i < j < |children| ==> !Carries(kind, children[j], name, others)
  }

  ghost predicate ListedIn(file: Json, category: string, name: string, members: seq<Json>)
    requires IsDict(file)
  {
    name != "" &&
    exists kind, children ::
      Member(category, Node(kind, children)) in file.children && Listed(kind, children, name, members)
  }

  /** One field that is not null in the reference, and no member of the candidate is like it. */
  ghost predicate Differs(reference: seq<Json>, candidate: seq<Json>, f: string) {
    exists v :: v != Null && Member(f, v) in reference && !exists w :: Member(f, w) in candidate && Same(v, w)
  }

  ghost predicate DivergesByMembers(reference: Json, candidate: Json, entry: (string, seq<string>), name: string)
    requires IsDict(reference) && IsDict(candidate)
  {
    exists refs, cands, f ::
      ListedIn(reference, entry.0, name, refs) && ListedIn(candidate, entry.0, name, cands) &&
      f in entry.1 && f != "name" && Differs(refs, cands, f)
  }

  /** A file without repeated keys, in whose items the text tells the siblings of arrays apart. */
  ghost predicate Orderly(str: Renderer, file: Json, entry: (string, seq<string>))
    requires IsDict(file)
  {
    && Valid(file)
    && forall name, members, f, v ::
         ListedIn(file, entry.0, name, members) && f in entry.1 && Member(f, v) in members ==> Discriminating(str, v)
  }

  lemma {:induction false} FindExactly(members: seq<Json>, key: string, v: Json)
    requires Valid(Node(Object, members))
    ensures Find(members, key) == Some(v) <==> Member(key, v) in members
    decreases |members|
  {
    if members != [] {
      var rest := members[1..];
      assert members == [members[0]] + rest;
      assert Valid(Node(Object, rest)) by {
        assert forall i :: 0 <= i < |rest| ==> rest[i] == members[i + 1];
      }
      FindExactly(rest, key, v);
    }
  }

  /** The extracted value of a field is the item's own. */
  ghost predicate IsFieldOf(value: Json, f: string, name: string, members: seq<Json>) {
    && value.Member? && value.key == f
    && if f == "name" then value.value == Str(name)
       else forall v :: v != Null ==> (value.value == v <==> Member(f, v) in members)
  }

  ghost predicate AreFieldsOf(values: seq<Json>, fields: seq<string>, name: string, members: seq<Json>) {
    |values| == |fields| && forall k :: 0 <= k < |fields| ==> IsFieldOf(values[k], fields[k], name, members)
  }

  lemma MembersOfItem(item: Json, own: seq<Json>, name: string, fields: seq<string>)
    requires IsDict(item) && Valid(Node(Object, own)) && Find(item.children, "name") == Some(Str(name))
    requires forall f: string :: f != "name" ==> Find(item.children, f) == Find(own, f)
    ensures NameOf(item) == name && AreFieldsOf(FieldsOf(item, fields), fields, name, own)
  {
    forall k | 0 <= k < |fields|
      ensures IsFieldOf(FieldsOf(item, fields)[k], fields[k], name, own)
    {
      var f := fields[k];
      forall v | v != Null
        ensures Find(own, f) == Some(v) <==> Member(f, v) in own
      {
        FindExactly(own, f, v);
      }
    }
  }

  /** The item that a child adds to the list, if it adds one. */
  function Added(kind: Kind, child: Json): Option<Json> {
    if kind.Array? && IsDict(child) then Some(child)
    else if kind.Object? && child.Member? && IsDict(child.value) then Some(Named(child.key, child.value))
    else None
  }

  lemma CarriedIsAdded(kind: Kind, child: Json, name: string, members: seq<Json>, fields: seq<string>)
    requires Valid(child) && Carries(kind, child, name, members)
    ensures Added(kind, child).Some?
    ensures var item := Added(kind, child).value;
            NameOf(item) == name && AreFieldsOf(FieldsOf(item, fields), fields, name, members)
  {
    var item := Added(kind, child).value;
    assert Valid(Node(Object, members));
    FindExactly(members, "name", Str(name));
    if Member("name", Str(name)) in members {
      assert item == Node(Object, members);
    } else {
      if Find(members, "name").Some? {
        FindExactly(members, "name", Find(members, "name").value);
      }
      assert item.children[1..] == members;
    }
    MembersOfItem(item, members, name, fields);
  }

  lemma AddedIsCarried(kind: Kind, child: Json, name: string) returns (members: seq<Json>)
    requires Valid(child) && name != "" && Added(kind, child).Some? && NameOf(Added(kind, child).value) == name
    ensures Carries(kind, child, name, members)
  {
    members := if kind.Array? then child.children else child.value.children;
    assert Valid(Node(Object, members));
    FindExactly(members, "name", Str(name));
    forall v
      ensures Find(members, "name") == Some(v) <==> Member("name", v) in members
    {
      FindExactly(members, "name", v);
    }
  }

  /** What one more child does to the extraction of a name. */
  lemma ExtractsOneMore(kind: Kind, before: seq<Json>, last: Json, fields: seq<string>, name: string)
    requires name != ""
    ensures var values, after := Extracted(Items(kind, before), fields), Extracted(Items(kind, before + [last]), fields);
            if Added(kind, last).Some? && NameOf(Added(kind, last).value) == name then
              Lookup(after, name) == Some(FieldsOf(Added(kind, last).value, fields))
            else
              Lookup(after, name) == Lookup(values, name)
  {
    assert (before + [last])[..|before|] == before;
    if Added(kind, last).Some? {
      ExtractedAppends(Items(kind, before), Added(kind, last).value, fields);
    }
  }

  /** The list of items agrees with the children of the section. */
  lemma {:induction false} ExtractedByMembers(kind: Kind, children: seq<Json>, fields: seq<string>, name: string)
    requires name != "" && forall i :: 0 <= i < |children| ==> Valid(children[i])
    ensures ExtractionAgrees(kind, children, fields, name, Lookup(Extracted(Items(kind, children), fields), name))
    decreases |children|
  {
    if children != [] {
      var n := |children| - 1;
      var before, last := children[..n], children[n];
      assert children == before + [last];
      ExtractedByMembers(kind, before, fields, name);
      ExtractsOneMore(kind, before, last, fields, name);
      if members :| Carries(kind, last, name, members) {
        AgreesByLast(kind, children, last, fields, name, members);
      } else {
        NoneIsAdded(kind, last, name);
        AgreesByBefore(kind, children, last, fields, name, Lookup(Extracted(Items(kind, before), fields), name));
      }
    }
  }

  lemma AgreesByLast(kind: Kind, children: seq<Json>, last: Json, fields: seq<string>, name: string, members: seq<Json>)
    requires children != [] && last == children[|children| - 1] && Valid(last) && Carries(kind, last, name, members)
    ensures Added(kind, last).Some? && NameOf(Added(kind, last).value) == name
    ensures ExtractionAgrees(kind, children, fields, name, Some(FieldsOf(Added(kind, last).value, fields)))
  {
    CarriedIsAdded(kind, last, name, members, fields);
    LastIsListed(kind, children, name, members);
    assert Listed(kind, children, name, members);
  }

  lemma AgreesByBefore(kind: Kind, children: seq<Json>, last: Json, fields: seq<string>, name: string,
      values: Option<seq<Json>>)
    requires children != [] && last == children[|children| - 1]
    requires forall members :: !Carries(kind, last, name, members)
    requires ExtractionAgrees(kind, children[..|children| - 1], fields, name, values)
    ensures ExtractionAgrees(kind, children, fields, name, values)
  {
    var before := children[..|children| - 1];
    ListedBefore(kind, children, last, name);
    if members :| Listed(kind, before, name, members) {
      assert Listed(kind, children, name, members);
    }
    forall members | Listed(kind, children, name, members)
      ensures Listed(kind, before, name, members)
    {
    }
  }

  /** The extraction has the name exactly when it is listed, and then the fields of its members. */
  ghost predicate ExtractionAgrees(kind: Kind, children: seq<Json>, fields: seq<string>, name: string,
      values: Option<seq<Json>>)
  {
    && (values.Some? <==> exists members :: Listed(kind, children, name, members))
    && forall members :: Listed(kind, children, name, members) && values.Some? ==>
         AreFieldsOf(values.value, fields, name, members)
  }

  lemma LastIsListed(kind: Kind, children: seq<Json>, name: string, members: seq<Json>)
    requires children != [] && Carries(kind, children[|children| - 1], name, members)
    ensures forall others :: Listed(kind, children, name, others) <==> others == members
  {
  }

  lemma NoneIsAdded(kind: Kind, child: Json, name: string)
    requires Valid(child) && name != "" && forall members :: !Carries(kind, child, name, members)
    ensures Added(kind, child).Some? ==> NameOf(Added(kind, child).value) != name
  {
    if Added(kind, child).Some? && NameOf(Added(kind, child).value) == name {
      var members := AddedIsCarried(kind, child, name);
    }
  }

  lemma ListedBefore(kind: Kind, children: seq<Json>, last: Json, name: string)
    requires children != [] && last == children[|children| - 1]
    requires forall members :: !Carries(kind, last, name, members)
    ensures forall members :: Listed(kind, children, name, members) <==>
                              Listed(kind, children[..|children| - 1], name, members)
  {
    var n := |children| - 1;
    var before := children[..n];
    forall i: nat | i < n
      ensures LastOf(kind, children, name, i) <==> LastOf(kind, before, name, i)
    {
      assert forall j :: i < j < n ==> before[j] == children[j];
    }
    forall members
      ensures Listed(kind, children, name, members) <==> Listed(kind, before, name, members)
    {
      assert forall i :: 0 <= i < n ==> before[i] == children[i];
    }
  }

  /** What is extracted from a file, by its members. */
  lemma ExtractByMembers(file: Json, category: string, fields: seq<string>, name: string)
    requires IsDict(file) && Valid(file)
    ensures var values := Extract(file, category, fields);
            && (name in values <==> exists members :: ListedIn(file, category, name, members))
            && forall members :: ListedIn(file, category, name, members) && name in values ==>
                 AreFieldsOf(values[name], fields, name, members)
  {
    var section := Find(file.children, category);
    forall v
      ensures section == Some(v) <==> Member(category, v) in file.children
    {
      FindExactly(file.children, category, v);
    }
    if name == "" {
      NamesAreNotEmpty(SectionItems(section.GetOr(Node(Array, []))), fields);
    } else if section.Some? && section.value.Node? {
      var kind, children := section.value.kind, section.value.children;
      assert Member(category, Node(kind, children)) in file.children;
      assert Valid(Node(kind, children));
      ExtractedByMembers(kind, children, fields, name);
      assert forall members :: ListedIn(file, category, name, members) <==> Listed(kind, children, name, members);
    }
  }

  lemma {:induction false} NamesAreNotEmpty(items: seq<Json>, fields: seq<string>)
    ensures "" !in Extracted(items, fields)
    decreases |items|
  {
    if items != [] {
      NamesAreNotEmpty(items[..|items| - 1], fields);
    }
  }

  /** The members of a listed item are valid. */
  lemma ListedAreValid(file: Json, category: string, name: string, members: seq<Json>, f: string, v: Json)
    requires IsDict(file) && Valid(file) && ListedIn(file, category, name, members) && Member(f, v) in members
    ensures Valid(v)
  {
    var kind, children :| Member(category, Node(kind, children)) in file.children &&
                          Listed(kind, children, name, members);
    assert Valid(Member(category, Node(kind, children)));
    var i :| 0 <= i < |children| && Carries(kind, children[i], name, members);
    assert Valid(children[i]);
    assert Valid(Node(Object, members));
    assert Valid(Member(f, v));
  }

  /** One field, extracted from both items, against the items' members. */
  lemma FieldDiffers(value: Json, other: Json, f: string, name: string, refs: seq<Json>, cands: seq<Json>)
    requires IsFieldOf(value, f, name, refs) && IsFieldOf(other, f, name, cands)
    ensures value.value != Null && !Same(value.value, other.value) <==> f != "name" && Differs(refs, cands, f)
  {
    if f != "name" {
      forall v, w | v != Null && Same(v, w)
        ensures w != Null
      {
      }
    }
  }

  /** What is reported, told by the members of the two files: both list an item of the name, and
      some compared field is a member of the first one's item, not null, and differs from the
      other one's by more than order. */
  lemma {:induction false} ReportedByMembers(str: Renderer, reference: Json, candidate: Json,
      entry: (string, seq<string>), name: string)
    requires IsDict(reference) && IsDict(candidate) && NoFieldTwice(entry.1)
    requires Orderly(str, reference, entry) && Valid(candidate)
    ensures Reported(str, reference, candidate, entry, name) <==> DivergesByMembers(reference, candidate, entry, name)
  {
    var fields := entry.1;
    ExtractByMembers(reference, entry.0, fields, name);
    ExtractByMembers(candidate, entry.0, fields, name);
    var rs: map<string, seq<Json>> := Extract(reference, entry.0, fields);
    var cs: map<string, seq<Json>> := Extract(candidate, entry.0, fields);
    if name in rs {
      var refs :| ListedIn(reference, entry.0, name, refs);
      forall k | 0 <= k < |fields|
        ensures Valid(rs[name][k].value) && Discriminating(str, rs[name][k].value)
      {
        FieldIsOrderly(str, reference, entry, name, refs, rs[name][k], fields[k]);
      }
    }
    ReportedExactly(str, reference, candidate, entry, name);
    forall refs, cands, k | ListedIn(reference, entry.0, name, refs) && ListedIn(candidate, entry.0, name, cands) &&
                            0 <= k < |fields|
      ensures rs[name][k].value != Null && !Same(rs[name][k].value, cs[name][k].value) <==>
              fields[k] != "name" && Differs(refs, cands, fields[k])
    {
      FieldDiffers(rs[name][k], cs[name][k], fields[k], name, refs, cands);
    }
  }

  lemma FieldIsOrderly(str: Renderer, file: Json, entry: (string, seq<string>), name: string,
      members: seq<Json>, value: Json, f: string)
    requires IsDict(file) && Orderly(str, file, entry) && ListedIn(file, entry.0, name, members)
    requires IsFieldOf(value, f, name, members) && f in entry.1
    ensures Valid(value.value) && Discriminating(str, value.value)
  {
    if f != "name" && value.value != Null {
      assert Member(f, value.value) in members;
      ListedAreValid(file, entry.0, name, members, f, value.value);
    }
  }

  /** The names are those of the items that diverge, told by the members of two orderly files. */
  ghost predicate Tells(str: Renderer, reference: Json, candidate: Json, entry: (string, seq<string>), names: set<string>)
    requires IsDict(reference) && IsDict(candidate)
  {
    NoFieldTwice(entry.1) && Orderly(str, reference, entry) && Valid(candidate) ==>
      forall name :: name in names <==> DivergesByMembers(reference, candidate, entry, name)
  }

  lemma ReportsTell(str: Renderer, reference: Json, candidate: Json, entry: (string, seq<string>), names: set<string>)
    requires IsDict(reference) && IsDict(candidate) && Reports(str, reference, candidate, entry, names)
    ensures Tells(str, reference, candidate, entry, names)
  {
    if NoFieldTwice(entry.1) && Orderly(str, reference, entry) && Valid(candidate) {
      forall name
        ensures name in names <==> DivergesByMembers(reference, candidate, entry, name)
      {
        ReportedByMembers(str, reference, candidate, entry, name);
      }
    }
  }

  /** The loop of `main` over the items of one category in one candidate file. */
  method CompareCategory(str: Renderer, reference: Json, candidate: Json, entry: (string, seq<string>))
    returns (diverging: set<string>)
    requires IsDict(reference) && IsDict(candidate)
    ensures Reports(str, reference, candidate, entry, diverging)
    ensures Tells(str, reference, candidate, entry, diverging)
  {
    var refs := ExtractFields(reference, entry.0, entry.1);
    var cands := ExtractFields(candidate, entry.0, entry.1);
    diverging := {};
    var rest := refs.Keys;
    while rest != {}
      invariant rest <= refs.Keys
      invariant forall name :: name in diverging <==> name !in rest && Reported(str, reference, candidate, entry, name)
      decreases rest
    {
      var name :| name in rest;
      rest := rest - {name};
      if name in cands && Diverges(str, refs[name], cands[name]) {
        diverging := diverging + {name};
      }
    }
    ReportsTell(str, reference, candidate, entry, diverging);
  }

  /** The loop over the later files. */
  method CompareFiles(str: Renderer, schemas: seq<Json>, entry: (string, seq<string>)) returns (found: seq<set<string>>)
    requires |schemas| >= 2 && forall i :: 0 <= i < |schemas| ==> IsDict(schemas[i])
    ensures ReportsExactly(str, schemas, entry, found)
  {
    found := [];
    for path := 1 to |schemas|
      invariant ReportsExactly(str, schemas[..path], entry, found)
    {
      var diverging := CompareCategory(str, schemas[0], schemas[path], entry);
      ReportsOneMore(str, schemas[..path], schemas[path], entry, found, diverging);
      assert schemas[..path + 1] == schemas[..path] + [schemas[path]];
      found := found + [diverging];
    }
    assert schemas[..|schemas|] == schemas;
  }

  lemma ReportsOneMore(str: Renderer, schemas: seq<Json>, candidate: Json, entry: (string, seq<string>),
      found: seq<set<string>>, names: set<string>)
    requires |schemas| >= 1 && IsDict(candidate) && forall i :: 0 <= i < |schemas| ==> IsDict(schemas[i])
    requires ReportsExactly(str, schemas, entry, found) && Reports(str, schemas[0], candidate, entry, names)
    ensures ReportsExactly(str, schemas + [candidate], entry, found + [names])
  {
  }

  ghost predicate Reports(str: Renderer, reference: Json, candidate: Json, entry: (string, seq<string>), names: set<string>)
    requires IsDict(reference) && IsDict(candidate)
  {
    forall name :: name in names <==> Reported(str, reference, candidate, entry, name)
  }

  ghost predicate ReportsExactly(str: Renderer, schemas: seq<Json>, entry: (string, seq<string>), found: seq<set<string>>)
    requires |schemas| >= 1 && forall i :: 0 <= i < |schemas| ==> IsDict(schemas[i])
  {
    && |found| == |schemas| - 1
    && forall i :: 0 <= i < |found| ==> Reports(str, schemas[0], schemas[i + 1], entry, found[i])
  }

  /** The outer loops of `main`: by category and later file, what diverges from the first file. */
  method Compare(str: Renderer, schemas: seq<Json>) returns (errors: seq<seq<set<string>>>)
    requires |schemas| >= 2 && forall i :: 0 <= i < |schemas| ==> IsDict(schemas[i])
    ensures |errors| == |REQUIRED_FIELDS|
    ensures forall k :: 0 <= k < |errors| ==>
              |errors[k]| == |schemas| - 1 && ReportsExactly(str, schemas, REQUIRED_FIELDS[k], errors[k])
    ensures forall k, i :: 0 <= k < |errors| && 0 <= i < |errors[k]| && i + 1 < |schemas| ==>
              Tells(str, schemas[0], schemas[i + 1], REQUIRED_FIELDS[k], errors[k][i])
  {
    errors := [];
    for k := 0 to |REQUIRED_FIELDS|
      invariant |errors| == k
      invariant forall l :: 0 <= l < k ==> ReportsExactly(str, schemas, REQUIRED_FIELDS[l], errors[l])
    {
      var found := CompareFiles(str, schemas, REQUIRED_FIELDS[k]);
      errors := errors + [found];
    }
    assert forall k :: 0 <= k < |errors| ==> |errors[k]| == |schemas| - 1;
    forall k, i | 0 <= k < |errors| && 0 <= i < |errors[k]|
      ensures Tells(str, schemas[0], schemas[i + 1], REQUIRED_FIELDS[k], errors[k][i])
    {
      ReportsTell(str, schemas[0], schemas[i + 1], REQUIRED_FIELDS[k], errors[k][i]);
    }
  }
}
