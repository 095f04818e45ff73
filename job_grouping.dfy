/**
 * The grouping stage of the job editor's `ngOnChanges`: input definitions are
 * folded into an object keyed by category (first-seen key order), the keys are
 * sorted, and each key becomes a named group holding its members in list order.
 */
module JobGrouping {
  import opened Wrappers
  import opened StringOrder

  /**
   * An input definition, opaque here except for its id and the result of the
   * nested lookup of `customProps.sbg:category` (None when absent).
   */
  datatype InputDef = InputDef(id: string, category: Option<string>)

  /** A named group of input definitions, as displayed by the editor. */
  datatype Group = Group(name: string, inputs: seq<InputDef>)

  /** The reduce accumulator: a plain object's keys in insertion order and its entries. */
  datatype Acc = Acc(keys: seq<string>, groups: map<string, seq<InputDef>>)

  const Uncategorized: string := "Uncategorized"

  /** The category key of a definition, defaulting to "Uncategorized". */
  function CategoryOf(d: InputDef): (c: string)
    ensures d.category.None? ==> c == Uncategorized
    ensures d.category.Some? ==> c == d.category.value
  {
    d.category.GetOr(Uncategorized)
  }

  /** The distinct categories occurring in `items`. */
  ghost function Categories(items: seq<InputDef>): set<string>
  {
    set x | x in items :: CategoryOf(x)
  }

  // ---------------------------------------------------------------------------
  // Reference definition: the members of one category, in list order.

  function Filter(items: seq<InputDef>, c: string): seq<InputDef>
  {
    if items == [] then []
    else (if CategoryOf(items[0]) == c then [items[0]] else []) + Filter(items[1..], c)
  }

  /** The members of every other category, in list order. */
  function Reject(items: seq<InputDef>, c: string): seq<InputDef>
  {
    if items == [] then []
    else (if CategoryOf(items[0]) != c then [items[0]] else []) + Reject(items[1..], c)
  }

  /** `sub` is `s` with some elements left out, the rest in their original order. */
  ghost predicate IsSubsequence<T>(sub: seq<T>, s: seq<T>)
    decreases |s|
  {
    if sub == [] then true
    else if s == [] then false
    else (sub[0] == s[0] && IsSubsequence(sub[1..], s[1..])) || IsSubsequence(sub, s[1..])
  }

  /**
   * Filter keeps exactly the members of category `c`, in their relative order
   * in the source list.
   */
  lemma {:induction false} FilterSpec(items: seq<InputDef>, c: string)
    ensures IsSubsequence(Filter(items, c), items)
    ensures forall x :: x in Filter(items, c) <==> x in items && CategoryOf(x) == c
  {
    if items != [] {
      FilterSpec(items[1..], c);
      var rest := Filter(items[1..], c);
      if CategoryOf(items[0]) == c {
        assert Filter(items, c) == [items[0]] + rest;
        assert ([items[0]] + rest)[1..] == rest;
      } else {
        assert Filter(items, c) == rest;
        if rest != [] {
          assert IsSubsequence(rest, items[1..]);
        }
      }
      assert items == [items[0]] + items[1..];
    }
  }

  lemma {:induction false} FilterOutside(items: seq<InputDef>, c: string)
    requires c !in Categories(items)
    ensures Filter(items, c) == []
  {
    if items != [] {
      assert Categories(items) == {CategoryOf(items[0])} + Categories(items[1..]);
      FilterOutside(items[1..], c);
    }
  }

  lemma {:induction false} FilterSnoc(items: seq<InputDef>, x: InputDef, c: string)
    ensures Filter(items + [x], c) == Filter(items, c) + (if CategoryOf(x) == c then [x] else [])
  {
    var e := if CategoryOf(x) == c then [x] else [];
    if items == [] {
      assert items + [x] == [x] && [x][1..] == [];
    } else {
      var t := items[1..];
      var h := if CategoryOf(items[0]) == c then [items[0]] else [];
      assert (items + [x])[0] == items[0] && (items + [x])[1..] == t + [x];
      FilterSnoc(t, x, c);
      assert Filter(items + [x], c) == h + (Filter(t, c) + e);
      assert h + (Filter(t, c) + e) == (h + Filter(t, c)) + e;
    }
  }


  lemma {:induction false} FilterRejectSplit(items: seq<InputDef>, c: string)
    ensures multiset(Filter(items, c)) + multiset(Reject(items, c)) == multiset(items)
  {
    if items != [] {
      FilterRejectSplit(items[1..], c);
      assert items == [items[0]] + items[1..];
    }
  }

  /** Filtering for `c` is unaffected by first removing another category `d`. */
  lemma {:induction false} FilterOfReject(items: seq<InputDef>, c: string, d: string)
    requires c != d
    ensures Filter(Reject(items, d), c) == Filter(items, c)
  {
    if items != [] {
      FilterOfReject(items[1..], c, d);
      var r := Reject(items[1..], d);
      if CategoryOf(items[0]) != d {
        assert Reject(items, d) == [items[0]] + r;
        assert ([items[0]] + r)[1..] == r;
        assert Filter([items[0]] + r, c)
          == (if CategoryOf(items[0]) == c then [items[0]] else []) + Filter(r, c);
      } else {
        assert Reject(items, d) == r;
        assert Filter(items, c) == Filter(items[1..], c);
      }
    }
  }

  lemma {:induction false} RejectMembers(items: seq<InputDef>, d: string)
    ensures forall x :: x in Reject(items, d) <==> x in items && CategoryOf(x) != d
  {
    if items != [] {
      RejectMembers(items[1..], d);
      assert items == [items[0]] + items[1..];
    }
  }

  // ---------------------------------------------------------------------------
  // The reduce, as the code intends it.

  /** One reduce step: append `item` to its category's list, adding the key if new. */
  function Step(acc: Acc, item: InputDef): Acc
  {
    var c := CategoryOf(item);
    if c in acc.groups then Acc(acc.keys, acc.groups[c := acc.groups[c] + [item]])
    else Acc(acc.keys + [c], acc.groups[c := [item]])
  }

  /**
   * A step appends the item to its category's list (a new list if the key is
   * new), adds the key at the end only if it is new, and leaves every other
   * entry alone.
   */
  lemma StepSpec(acc: Acc, item: InputDef)
    ensures var r, c := Step(acc, item), CategoryOf(item);
      && r.groups.Keys == acc.groups.Keys + {c}
      && r.groups[c] == (if c in acc.groups then acc.groups[c] else []) + [item]
      && (forall k :: k in acc.groups && k != c ==> r.groups[k] == acc.groups[k])
      && r.keys == (if c in acc.groups then acc.keys else acc.keys + [c])
  {
  }

  /** `items.reduce(Step, {})`: a left fold, so the last item is added last. */
  function Reduce(items: seq<InputDef>): (r: Acc)
    ensures forall k :: k in r.keys <==> k in r.groups
    ensures |r.keys| <= |items|
    ensures forall k :: k in r.groups ==> r.groups[k] != []
  {
    if items == [] then Acc([], map[])
    else Step(Reduce(items[..|items| - 1]), items[|items| - 1])
  }

  ghost predicate NoDup<T>(s: seq<T>)
  {
    forall i, j :: 0 <= i < j < |s| ==> s[i] != s[j]
  }

  /**
   * The folded object has one key per category, keys in insertion order
   * without repetition, and under each key exactly that category's members in
   * list order.
   */
  lemma {:induction false} ReduceSpec(items: seq<InputDef>)
    ensures var acc := Reduce(items);
      && acc.groups.Keys == Categories(items)
      && (forall k :: k in acc.keys <==> k in acc.groups)
      && NoDup(acc.keys)
      && (forall c :: c in acc.groups ==> acc.groups[c] == Filter(items, c))
  {
    if items != [] {
      var front, x := items[..|items| - 1], items[|items| - 1];
      assert items == front + [x];
      ReduceSpec(front);
      var acc := Reduce(front);
      forall c | c in Reduce(items).groups
        ensures Reduce(items).groups[c] == Filter(items, c)
      {
        FilterSnoc(front, x, c);
        if c != CategoryOf(x) {
          assert c in acc.groups;
        } else if c !in acc.groups {
          assert c !in Categories(front);
          FilterOutside(front, c);
        }
      }
      assert Categories(items) == Categories(front) + {CategoryOf(x)};
    }
  }

  // ---------------------------------------------------------------------------
  // The reduce as written. Its accumulator is a plain JavaScript object, so
  // `acc[cat]` also finds the members every object inherits from
  // `Object.prototype`. For such a name `(acc[cat] || [])` is a function or an
  // object rather than an array, and calling `.concat` on it throws a TypeError.

  /** The members of `Object.prototype`, which a fresh object literal inherits. */
  const InheritedNames: set<string> := {
    "constructor", "__proto__", "hasOwnProperty", "isPrototypeOf",
    "propertyIsEnumerable", "toString", "toLocaleString", "valueOf",
    "__defineGetter__", "__defineSetter__", "__lookupGetter__", "__lookupSetter__"
  }

  /** One reduce step as written: None stands for the TypeError thrown by `.concat`. */
  function StepAsWritten(acc: Acc, item: InputDef): (r: Option<Acc>)
    ensures r.None? <==> CategoryOf(item) !in acc.groups && CategoryOf(item) in InheritedNames
    ensures r.Some? ==> r.value == Step(acc, item)
  {
    var c := CategoryOf(item);
    if c !in acc.groups && c in InheritedNames then None else Some(Step(acc, item))
  }

  function ReduceAsWritten(items: seq<InputDef>): (r: Option<Acc>)
    ensures r.None? ==> exists x :: x in items && CategoryOf(x) in InheritedNames
  {
    if items == [] then Some(Acc([], map[]))
    else match ReduceAsWritten(items[..|items| - 1])
      case None => None
      case Some(acc) => StepAsWritten(acc, items[|items| - 1])
  }

  /** A single input whose category is "toString" makes the reduce as written throw. */
  lemma ReduceAsWrittenThrows()
    ensures ReduceAsWritten([InputDef("threads", Some("toString"))]).None?
  {
  }

  /**
   * The reduce as written throws exactly when some category names an
   * inherited member, and otherwise agrees with the intended Reduce.
   */
  lemma {:induction false} ReduceAsWrittenIff(items: seq<InputDef>)
    ensures ReduceAsWritten(items).None? <==> exists x :: x in items && CategoryOf(x) in InheritedNames
    ensures ReduceAsWritten(items).Some? ==> ReduceAsWritten(items).value == Reduce(items)
  {
    if items != [] {
      var front, x := items[..|items| - 1], items[|items| - 1];
      assert items == front + [x];
      ReduceAsWrittenIff(front);
      ReduceSpec(front);
    }
  }

  // ---------------------------------------------------------------------------
  // Sorting the keys (`Object.keys(grouped).sort(...)`).

  ghost predicate Sorted(s: seq<string>)
  {
    forall i, j :: 0 <= i < j < |s| ==> !Less(s[j], s[i])
  }

  ghost predicate StrictlySorted(s: seq<string>)
  {
    forall i, j :: 0 <= i < j < |s| ==> Less(s[i], s[j])
  }

  function Insert(x: string, s: seq<string>): (r: seq<string>)
    requires Sorted(s)
    ensures Sorted(r)
    ensures multiset(r) == multiset(s) + multiset{x}
    ensures StrictlySorted(s) && x !in s ==> StrictlySorted(r)
  {
    if s == [] then [x]
    else if !Less(s[0], x) then
      InsertFront(x, s);
      [x] + s
    else
      var r' := Insert(x, s[1..]);
      InsertBehind(x, s, r');
      assert s == [s[0]] + s[1..];
      [s[0]] + r'
  }

  lemma InsertFront(x: string, s: seq<string>)
    requires Sorted(s) && s != [] && !Less(s[0], x)
    ensures Sorted([x] + s)
    ensures StrictlySorted(s) && x !in s ==> StrictlySorted([x] + s)
  {
    forall j | 0 <= j < |s| ensures !Less(s[j], x) {
      NotLessTransitive(x, s[0], s[j]);
    }
    if StrictlySorted(s) && x !in s {
      LessTotal(x, s[0]);
      forall j | 0 < j < |s| ensures Less(x, s[j]) {
        LessTransitive(x, s[0], s[j]);
      }
    }
  }

  lemma InsertBehind(x: string, s: seq<string>, r': seq<string>)
    requires Sorted(s) && s != [] && Less(s[0], x)
    requires Sorted(r') && multiset(r') == multiset(s[1..]) + multiset{x}
    requires StrictlySorted(s[1..]) && x !in s[1..] ==> StrictlySorted(r')
    ensures Sorted([s[0]] + r')
    ensures StrictlySorted(s) && x !in s ==> StrictlySorted([s[0]] + r')
  {
    assert s == [s[0]] + s[1..];
    forall j | 0 <= j < |r'| ensures Less(s[0], r'[j]) || s[0] == r'[j] {
      assert r'[j] in multiset(r');
      if r'[j] != x {
        assert r'[j] in s[1..];
        var k :| 0 <= k < |s[1..]| && s[1..][k] == r'[j];
        LessTotal(s[0], r'[j]);
      }
    }
    forall j | 0 <= j < |r'| ensures !Less(r'[j], s[0]) {
      LessAsymmetric(s[0], r'[j]);
      LessIrreflexive(s[0]);
    }
    if StrictlySorted(s) && x !in s {
      LessIrreflexive(s[0]);
      forall k | 1 <= k < |s| ensures s[k] != s[0] {
        assert Less(s[0], s[k]);
      }
      assert s[0] !in s[1..];
      forall j | 0 <= j < |r'| ensures Less(s[0], r'[j]) {
        assert r'[j] in multiset(r');
        assert r'[j] != s[0];
      }
    }
  }

  /** The key sort, as an insertion sort with the comparator `Less`. */
  function SortNames(s: seq<string>): (r: seq<string>)
    ensures Sorted(r)
    ensures multiset(r) == multiset(s)
    ensures NoDup(s) ==> StrictlySorted(r)
  {
    if s == [] then []
    else
      var r' := SortNames(s[1..]);
      assert s == [s[0]] + s[1..];
      assert NoDup(s) ==> s[0] !in multiset(r');
      Insert(s[0], r')
  }

  // ---------------------------------------------------------------------------
  // The group list.

  /** The concatenation of all groups' members. */
  function Flatten(gs: seq<Group>): seq<InputDef>
  {
    if gs == [] then [] else gs[0].inputs + Flatten(gs[1..])
  }

  ghost function Names(gs: seq<Group>): set<string>
  {
    set g | g in gs :: g.name
  }

  /** Pairs each name with its entry of the folded object. */
  function GroupsOf(names: seq<string>, groups: map<string, seq<InputDef>>): (gs: seq<Group>)
    requires forall k :: k in names ==> k in groups
    ensures |gs| == |names|
    ensures forall i :: 0 <= i < |gs| ==> gs[i] == Group(names[i], groups[names[i]])
  {
    if names == [] then [] else [Group(names[0], groups[names[0]])] + GroupsOf(names[1..], groups)
  }

  /**
   * `inputGroups` after `ngOnChanges`: the sorted keys of the folded object,
   * each paired with its members. Group names are strictly ascending (so
   * distinct), they are exactly the categories present, no group is empty and
   * each group holds exactly its category's members in source order.
   */
  function InputGroups(items: seq<InputDef>): (gs: seq<Group>)
    ensures forall i, j :: 0 <= i < j < |gs| ==> Less(gs[i].name, gs[j].name)
    ensures Names(gs) == Categories(items)
    ensures forall i :: 0 <= i < |gs| ==> gs[i].inputs == Filter(items, gs[i].name)
    ensures forall i :: 0 <= i < |gs| ==> gs[i].inputs != []
  {
    var acc := Reduce(items);
    ReduceSpec(items);
    var names := SortNames(acc.keys);
    SortedKeysSpec(acc, names);
    var gs := GroupsOf(names, acc.groups);
    GroupsOfSpec(items, names, gs);
    gs
  }

  lemma SortedKeysSpec(acc: Acc, names: seq<string>)
    requires forall k :: k in acc.keys <==> k in acc.groups
    requires multiset(names) == multiset(acc.keys)
    ensures forall k :: k in names <==> k in acc.groups
  {
    forall k ensures k in names <==> k in acc.groups {
      assert k in names <==> k in multiset(names);
      assert k in acc.keys <==> k in multiset(acc.keys);
    }
  }

  lemma GroupsOfSpec(items: seq<InputDef>, names: seq<string>, gs: seq<Group>)
    requires forall k :: k in names <==> k in Reduce(items).groups
    requires Reduce(items).groups.Keys == Categories(items)
    requires forall c :: c in Reduce(items).groups ==> Reduce(items).groups[c] == Filter(items, c)
    requires gs == GroupsOf(names, Reduce(items).groups)
    ensures Names(gs) == Categories(items)
    ensures forall i :: 0 <= i < |gs| ==> gs[i].inputs == Filter(items, gs[i].name)
    ensures forall i :: 0 <= i < |gs| ==> gs[i].inputs != []
  {
    forall c | c in Categories(items) ensures c in Names(gs) {
      var i :| 0 <= i < |names| && names[i] == c;
      assert gs[i].name == c;
    }
    forall i | 0 <= i < |gs| ensures gs[i].inputs != [] {
      assert gs[i].name in Categories(items);
      var x :| x in items && CategoryOf(x) == gs[i].name;
      FilterSpec(items, gs[i].name);
    }
  }

  /** The groups together are a permutation of the input list. */
  lemma {:induction false} FlattenIsPermutation(items: seq<InputDef>, gs: seq<Group>)
    requires forall i :: 0 <= i < |gs| ==> gs[i].inputs == Filter(items, gs[i].name)
    requires forall i, j :: 0 <= i < j < |gs| ==> gs[i].name != gs[j].name
    requires forall x :: x in items ==> CategoryOf(x) in Names(gs)
    ensures multiset(Flatten(gs)) == multiset(items)
    decreases |gs|
  {
    if gs == [] {
      if items != [] {
        assert false;
      }
    } else {
      var d := gs[0].name;
      var rest := Reject(items, d);
      FilterRejectSplit(items, d);
      RejectMembers(items, d);
      forall i | 0 <= i < |gs[1..]| ensures gs[1..][i].inputs == Filter(rest, gs[1..][i].name) {
        FilterOfReject(items, gs[1..][i].name, d);
      }
      forall x | x in rest ensures CategoryOf(x) in Names(gs[1..]) {
        assert CategoryOf(x) in Names(gs);
        var g :| g in gs && g.name == CategoryOf(x);
        assert g != gs[0];
      }
      FlattenIsPermutation(rest, gs[1..]);
    }
  }

  /** Every definition lands in exactly one group: the one named by its category. */
  lemma ExactlyOneGroup(items: seq<InputDef>, x: InputDef)
    requires x in items
    ensures var gs := InputGroups(items);
      && (exists i :: 0 <= i < |gs| && gs[i].name == CategoryOf(x))
      && (forall i :: 0 <= i < |gs| ==> (x in gs[i].inputs <==> gs[i].name == CategoryOf(x)))
  {
    var gs := InputGroups(items);
    assert CategoryOf(x) in Names(gs);
    forall i | 0 <= i < |gs| ensures x in gs[i].inputs <==> gs[i].name == CategoryOf(x) {
      FilterSpec(items, gs[i].name);
    }
  }

  /** The concatenation of all of `InputGroups(items)` is a permutation of `items`. */
  lemma InputGroupsPermutation(items: seq<InputDef>)
    ensures multiset(Flatten(InputGroups(items))) == multiset(items)
  {
    var gs := InputGroups(items);
    forall i, j | 0 <= i < j < |gs| ensures gs[i].name != gs[j].name {
      LessIrreflexive(gs[i].name);
    }
    FlattenIsPermutation(items, gs);
  }

  /** Within a group, members keep their relative order from the source list. */
  lemma InputGroupsStable(items: seq<InputDef>, i: nat)
    requires i < |InputGroups(items)|
    ensures IsSubsequence(InputGroups(items)[i].inputs, items)
    ensures forall x :: x in InputGroups(items)[i].inputs ==> CategoryOf(x) == InputGroups(items)[i].name
  {
    FilterSpec(items, InputGroups(items)[i].name);
  }

  /** A definition without category metadata is grouped under "Uncategorized". */
  lemma UncategorizedExample()
    ensures InputGroups([InputDef("reads", None)]) == [Group(Uncategorized, [InputDef("reads", None)])]
  {
  }

  /** Categories B, A, A give the groups A then B, with A's two members in source order. */
  lemma GroupOrderExample()
    ensures var b, a1, a2 := InputDef("b", Some("B")), InputDef("a1", Some("A")), InputDef("a2", Some("A"));
      InputGroups([b, a1, a2]) == [Group("A", [a1, a2]), Group("B", [b])]
  {
    var b, a1, a2 := InputDef("b", Some("B")), InputDef("a1", Some("A")), InputDef("a2", Some("A"));
    ExampleReduce(b, a1, a2);
    ExampleSort();
    var acc := Reduce([b, a1, a2]);
    assert GroupsOf(["A", "B"], acc.groups) == [Group("A", [a1, a2]), Group("B", [b])];
  }

  lemma ExampleReduce(b: InputDef, a1: InputDef, a2: InputDef)
    requires b == InputDef("b", Some("B")) && a1 == InputDef("a1", Some("A")) && a2 == InputDef("a2", Some("A"))
    ensures Reduce([b, a1, a2]) == Acc(["B", "A"], map["B" := [b], "A" := [a1, a2]])
  {
    var items := [b, a1, a2];
    assert items[..2] == [b, a1] && [b, a1][..1] == [b] && [b][..0] == [];
    assert "A" != "B" by { assert "A"[0] != "B"[0]; }
    assert Reduce([b]) == Acc(["B"], map["B" := [b]]);
    var m := map["B" := [b], "A" := [a1]];
    assert Reduce([b, a1]) == Acc(["B", "A"], m);
    assert Step(Acc(["B", "A"], m), a2) == Acc(["B", "A"], m["A" := [a1] + [a2]]);
    assert [a1] + [a2] == [a1, a2];
    assert m["A" := [a1, a2]] == map["B" := [b], "A" := [a1, a2]];
  }

  lemma ExampleSort()
    ensures SortNames(["B", "A"]) == ["A", "B"]
  {
  }
}
