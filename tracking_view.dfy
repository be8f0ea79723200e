/** What the two document-tracking pages derive from the loaded monitoring rows:
    the multi-select field filter, the per-document groups with one slot per
    milestone, their sort order, the recap table, the rows shown per group and
    the date-only submit classification. The rows are the page's project rows in
    load order (`created_at` ascending). */
module TrackingView {
  import opened Common
  import opened Domain

  // ---------------------------------------------------------------------------
  // Field filter

  /** The checkbox value that stands for every field. */
  const AllKey := "all"
  const FieldNames: seq<string> := ["Limau", "OK - RT", "Prabumulih"]
  /** `item.field || 'Prabumulih'`, applied when the rows are loaded. */
  const DefaultField := "Prabumulih"

  /** What a checkbox reports: `boolean | 'indeterminate'`. */
  datatype CheckedState = Checked | Unchecked | Indeterminate

  /** JavaScript truthiness of the reported state: only `false` is falsy. */
  predicate Truthy(c: CheckedState) {
    c != Unchecked
  }

  /** `handleFieldFilterChange(value, checked)` as a function of the previous filter. */
  function FieldFilterChange(prev: seq<string>, value: string, checked: CheckedState): (r: seq<string>)
    ensures value == AllKey ==> r == (if Truthy(checked) then [AllKey] else [])
    ensures value != AllKey ==> r == [AllKey] || AllKey !in r
    ensures value != AllKey && r != [AllKey] ==>
      (Truthy(checked) ==> value in r) && (!Truthy(checked) ==> value !in r)
      && 1 <= |r| && |r| != 3
      && (forall i :: 0 <= i < |r| ==> r[i] == value || r[i] in prev)
      && (forall i :: 0 <= i < |prev| && prev[i] != AllKey && prev[i] != value ==> prev[i] in r)
    ensures value != AllKey ==>
      var n := FieldsAfterClick(prev, value, checked);
      r == (if |n| == 0 || |n| == 3 then [AllKey] else n)
  {
    if value == AllKey then
      if Truthy(checked) then [AllKey] else []
    else
      var next := FieldsAfterClick(prev, value, checked);
      if |next| == 3 || |next| == 0 then [AllKey] else next
  }

  /** A field click first drops 'all', then appends the field when checked and
      removes it otherwise. */
  function FieldsAfterClick(prev: seq<string>, value: string, checked: CheckedState): seq<string> {
    var dropped := Without(prev, AllKey);
    if Truthy(checked) then dropped + [value] else Without(dropped, value)
  }

  /** The fields a field click leaves selected: the previous ones other than the
      clicked one, plus the clicked one when it is checked. */
  function SelectedFields(prev: seq<string>, value: string, checked: CheckedState): set<string> {
    (set x | x in prev && x != AllKey && x != value) + (if Truthy(checked) then {value} else {})
  }

  lemma FieldsAfterClickDistinct(prev: seq<string>, value: string, checked: CheckedState)
    requires value != AllKey && NoDuplicates(prev)
    requires Truthy(checked) ==> value !in prev
    ensures var n := FieldsAfterClick(prev, value, checked);
      NoDuplicates(n) && AllKey !in n && (set x | x in n) == SelectedFields(prev, value, checked)
  {
    var d := Without(prev, AllKey);
    WithoutKeepsNoDuplicates(prev, AllKey);
    var n := FieldsAfterClick(prev, value, checked);
    if Truthy(checked) {
      assert value !in d;
      assert NoDuplicates(n);
    } else {
      WithoutKeepsNoDuplicates(d, value);
    }
    forall x ensures x in n <==> x in SelectedFields(prev, value, checked) {
      assert x in d <==> x in prev && x != AllKey;
    }
  }

  /** A field click that does not re-check a selected field falls back to 'all'
      exactly when no field or all three fields would remain selected, and otherwise
      leaves exactly the remaining fields selected, each once. */
  lemma FieldFilterCollapse(prev: seq<string>, value: string, checked: CheckedState)
    requires value != AllKey && NoDuplicates(prev)
    requires Truthy(checked) ==> value !in prev
    ensures var fields := SelectedFields(prev, value, checked);
      var r := FieldFilterChange(prev, value, checked);
      (r == [AllKey] <==> |fields| == 0 || |fields| == 3)
      && (r != [AllKey] ==> NoDuplicates(r) && (set x | x in r) == fields)
  {
    var n := FieldsAfterClick(prev, value, checked);
    FieldsAfterClickDistinct(prev, value, checked);
    DistinctCard(n);
  }

  /** While every field is shown, every specific checkbox is drawn checked, so
      clicking one reports `false`: the filter drops nothing and stays 'all'. */
  lemma UncheckingFromAllStaysAll(value: string)
    requires value != AllKey
    ensures FieldFilterChange([AllKey], value, Unchecked) == [AllKey]
  {
    assert Without([AllKey], AllKey) == [];
  }

  /** The filter states the checkboxes can produce: 'all' alone, or up to two
      distinct field names (none at all after unchecking 'all'). */
  predicate FilterWellFormed(f: seq<string>) {
    f == [AllKey]
    || (AllKey !in f && NoDuplicates(f) && |f| <= 2 && forall i :: 0 <= i < |f| ==> f[i] in FieldNames)
  }

  /** `checked=` of a checkbox: 'all' when the filter holds it; a field when the
      filter holds it or holds 'all'. */
  predicate Shown(f: seq<string>, value: string) {
    if value == AllKey then AllKey in f else value in f || AllKey in f
  }

  /** A click reports the opposite of what the box shows; starting from a state the
      checkboxes can produce, every click leads to such a state again. */
  lemma ClickKeepsFilterWellFormed(prev: seq<string>, value: string)
    requires FilterWellFormed(prev)
    requires value == AllKey || value in FieldNames
    ensures FilterWellFormed(FieldFilterChange(prev, value, if Shown(prev, value) then Unchecked else Checked))
  {
    if value != AllKey {
      var dropped := Without(prev, AllKey);
      if prev == [AllKey] {
        assert dropped == [];
      } else {
        assert dropped == prev;
        if Shown(prev, value) {
          WithoutKeepsNoDuplicates(prev, value);
        } else {
          var next := prev + [value];
          assert forall i :: 0 <= i < |next| ==> next[i] in FieldNames;
          assert NoDuplicates(next);
        }
      }
    }
  }

  /** The field a loaded row is filtered and shown under. */
  function RowField(r: Row): (f: string)
    ensures r.field.Some? && r.field.value != "" ==> f == r.field.value
    ensures r.field.None? || r.field.value == "" ==> f == DefaultField
  {
    OrElse(r.field, DefaultField)
  }

  /** The page's filters: the field filter (Area2 only; the other page admits
      every field) and the PIC filter, where the string 'all' admits every PIC. */
  datatype ViewFilter = ViewFilter(fields: seq<string>, pic: string)

  /** `fieldFilter.includes('all') || fieldFilter.includes(item.field)` and
      `picFilter === 'all' || item.pic === picFilter`. */
  predicate Keep(v: ViewFilter, r: Row) {
    (AllKey in v.fields || RowField(r) in v.fields) && (v.pic == "all" || r.pic == Some(v.pic))
  }

  /** The pages' initial filter, and the only field filter of PrabumulihProjectDetail. */
  function PicOnly(pic: string): ViewFilter {
    ViewFilter([AllKey], pic)
  }

  /** The kept rows, in load order. */
  function Kept(rows: seq<Row>, v: ViewFilter): (k: seq<Row>)
    ensures |k| <= |rows|
    ensures forall x :: x in k ==> Keep(v, x) && x in rows
    ensures forall x :: x in rows && Keep(v, x) ==> x in k
  {
    if |rows| == 0 then []
    else
      var init := rows[..|rows| - 1];
      var last := rows[|rows| - 1];
      assert forall i :: 0 <= i < |init| ==> init[i] == rows[i];
      Kept(init, v) + (if Keep(v, last) then [last] else [])
  }

  /** The table keeps load order: filtering a concatenation filters each part in turn. */
  lemma {:induction false} KeptAppend(a: seq<Row>, b: seq<Row>, v: ViewFilter)
    ensures Kept(a + b, v) == Kept(a, v) + Kept(b, v)
    decreases |b|
  {
    if |b| == 0 {
      assert a + b == a;
    } else {
      var ab := a + b;
      assert ab[..|ab| - 1] == a + b[..|b| - 1];
      assert ab[|ab| - 1] == b[|b| - 1];
      KeptAppend(a, b[..|b| - 1], v);
    }
  }

  /** Unchecking 'all' leaves a filter that hides every row. */
  lemma EmptyFieldFilterHidesAll(rows: seq<Row>, pic: string)
    ensures Kept(rows, ViewFilter([], pic)) == []
  {
  }

  /** With both filters at 'all', every row is kept. */
  lemma {:induction false} AllFiltersKeepEveryRow(rows: seq<Row>)
    ensures Kept(rows, PicOnly("all")) == rows
  {
    if |rows| > 0 {
      AllFiltersKeepEveryRow(rows[..|rows| - 1]);
    }
  }

  // ---------------------------------------------------------------------------
  // Groups

  /** One document of the view: header columns from its first kept row and one
      slot per milestone. */
  datatype Group = Group(
    field: string,
    fileName: string,
    documentNumber: Option<string>,
    pic: Option<string>,
    id: string,
    ifr: Option<Row>,
    ifa: Option<Row>,
    ifb: Option<Row>)
  {
    function Slot(c: Category): Option<Row> {
      match c
      case IFR => ifr
      case IFA => ifa
      case IFB => ifb
    }

    /** `acc[file_name].<c> = item`. */
    function WithSlot(c: Category, r: Row): (g: Group)
      ensures g.Slot(c) == Some(r)
      ensures forall d :: d != c ==> g.Slot(d) == Slot(d)
      ensures g.field == field && g.fileName == fileName && g.documentNumber == documentNumber
              && g.pic == pic && g.id == id
    {
      match c
      case IFR => this.(ifr := Some(r))
      case IFA => this.(ifa := Some(r))
      case IFB => this.(ifb := Some(r))
    }
  }

  /** The header a group takes from the row that opens it. */
  function NewGroup(r: Row): Group {
    Group(RowField(r), r.fileName, r.documentNumber, r.pic, r.id, None, None, None)
  }

  predicate HeaderFrom(g: Group, r: Row) {
    g.field == RowField(r) && g.fileName == r.fileName && g.documentNumber == r.documentNumber
    && g.pic == r.pic && g.id == r.id
  }

  /** The `reduce` accumulator: a record keyed by file name, with its keys in
      insertion order. */
  datatype Grouping = Grouping(order: seq<string>, groups: map<string, Group>)

  /** One step of the reduce body for a row that passed the filters. */
  function AddRow(g: Grouping, r: Row): Grouping {
    var base := if r.fileName in g.groups then g.groups[r.fileName] else NewGroup(r);
    var order := if r.fileName in g.groups then g.order else g.order + [r.fileName];
    Grouping(order, g.groups[r.fileName := base.WithSlot(r.category, r)])
  }

  /** Grouping every row of a sequence. */
  function GroupAll(rows: seq<Row>): Grouping
    decreases |rows|
  {
    if |rows| == 0 then Grouping([], map[])
    else AddRow(GroupAll(rows[..|rows| - 1]), rows[|rows| - 1])
  }

  /** `groupedData`: the reduce over the loaded rows, skipping the rows a filter rejects. */
  function GroupFold(rows: seq<Row>, v: ViewFilter): (g: Grouping)
    ensures |g.order| <= |rows|
    ensures forall k :: k in g.order ==> k in g.groups
    decreases |rows|
  {
    if |rows| == 0 then Grouping([], map[])
    else
      var g := GroupFold(rows[..|rows| - 1], v);
      if Keep(v, rows[|rows| - 1]) then AddRow(g, rows[|rows| - 1]) else g
  }

  /** The reduce body, run over the rows with the accumulator updated in place. */
  method GroupRows(rows: seq<Row>, v: ViewFilter) returns (acc: Grouping)
    ensures acc == GroupFold(rows, v)
  {
    acc := Grouping([], map[]);
    for i := 0 to |rows|
      invariant acc == GroupFold(rows[..i], v)
    {
      var item := rows[i];
      assert rows[..i + 1][..i] == rows[..i];
      if Keep(v, item) {
        if item.fileName !in acc.groups {
          acc := Grouping(acc.order + [item.fileName], acc.groups[item.fileName := NewGroup(item)]);
        }
        acc := acc.(groups := acc.groups[item.fileName := acc.groups[item.fileName].WithSlot(item.category, item)]);
      }
    }
    assert rows[..|rows|] == rows;
  }

  /** Filtering inside the reduce is the same as grouping the kept rows. */
  lemma {:induction false} FilterThenGroup(rows: seq<Row>, v: ViewFilter)
    ensures GroupFold(rows, v) == GroupAll(Kept(rows, v))
    decreases |rows|
  {
    if |rows| > 0 {
      var init := rows[..|rows| - 1];
      var x := rows[|rows| - 1];
      FilterThenGroup(init, v);
      var k := Kept(init, v);
      if Keep(v, x) {
        var k' := k + [x];
        assert Kept(rows, v) == k';
        assert k'[..|k'| - 1] == k;
        assert GroupAll(k') == AddRow(GroupAll(k), x);
      } else {
        assert Kept(rows, v) == k;
      }
    }
  }

  /** The index of the first row of document k, or |rows| if there is none. */
  function FirstPos(rows: seq<Row>, k: string): (p: nat)
    ensures p <= |rows|
    ensures forall j :: 0 <= j < p ==> rows[j].fileName != k
    ensures p < |rows| ==> rows[p].fileName == k
  {
    if |rows| == 0 then 0
    else if rows[0].fileName == k then 0
    else 1 + FirstPos(rows[1..], k)
  }

  lemma FirstPosSnoc(rows: seq<Row>, x: Row, k: string)
    ensures FirstPos(rows + [x], k)
            == if FirstPos(rows, k) < |rows| then FirstPos(rows, k)
               else if x.fileName == k then |rows| else |rows| + 1
  {
    var s := rows + [x];
    var p := FirstPos(s, k);
    assert forall j :: 0 <= j < |rows| ==> s[j] == rows[j];
    assert s[|rows|] == x;
  }

  /** A document with no row has no last row of any milestone. */
  lemma {:induction false} LastWithAbsent(rows: seq<Row>, k: string, c: Category)
    requires FirstPos(rows, k) == |rows|
    ensures LastWith(rows, k, c) == None
    decreases |rows|
  {
    if |rows| > 0 {
      var init := rows[..|rows| - 1];
      assert rows[|rows| - 1].fileName != k;
      FirstPosSnoc(init, rows[|rows| - 1], k);
      assert rows == init + [rows[|rows| - 1]];
      LastWithAbsent(init, k, c);
    }
  }

  /** The last row of document k and milestone c, if any. */
  function LastWith(rows: seq<Row>, k: string, c: Category): Option<Row>
    decreases |rows|
  {
    if |rows| == 0 then None
    else if rows[|rows| - 1].fileName == k && rows[|rows| - 1].category == c then Some(rows[|rows| - 1])
    else LastWith(rows[..|rows| - 1], k, c)
  }

  /** The keys of a grouping: no key twice in the order, the order and the record
      hold the same keys, and a key is there exactly when some row has that file name. */
  lemma {:induction false} GroupAllKeys(rows: seq<Row>)
    ensures var g := GroupAll(rows);
      NoDuplicates(g.order)
      && (forall k :: k in g.groups <==> k in g.order)
      && (forall k :: k in g.groups <==> FirstPos(rows, k) < |rows|)
    decreases |rows|
  {
    if |rows| > 0 {
      var init := rows[..|rows| - 1];
      var x := rows[|rows| - 1];
      assert rows == init + [x];
      GroupAllKeys(init);
      var g0 := GroupAll(init);
      var g := GroupAll(rows);
      forall k ensures FirstPos(rows, k) == if FirstPos(init, k) < |init| then FirstPos(init, k)
                                          else if x.fileName == k then |init| else |init| + 1 {
        FirstPosSnoc(init, x, k);
      }
      if x.fileName !in g0.groups {
        assert x.fileName !in g0.order;
        assert NoDuplicates(g.order);
      }
    }
  }

  /** Each group's header comes from its document's first row. */
  lemma {:induction false} GroupAllHeaders(rows: seq<Row>)
    ensures var g := GroupAll(rows);
      forall k :: k in g.groups ==> FirstPos(rows, k) < |rows| && HeaderFrom(g.groups[k], rows[FirstPos(rows, k)])
    decreases |rows|
  {
    GroupAllKeys(rows);
    if |rows| > 0 {
      var init := rows[..|rows| - 1];
      var x := rows[|rows| - 1];
      assert rows == init + [x];
      GroupAllHeaders(init);
      GroupAllKeys(init);
      var g0 := GroupAll(init);
      var g := GroupAll(rows);
      forall k | k in g.groups ensures HeaderFrom(g.groups[k], rows[FirstPos(rows, k)]) {
        FirstPosSnoc(init, x, k);
        if k in g0.groups {
          assert rows[FirstPos(rows, k)] == init[FirstPos(init, k)];
        }
      }
    }
  }

  /** The slot of milestone c of a group holds its document's last row of milestone c. */
  lemma {:induction false} GroupAllSlots(rows: seq<Row>)
    ensures var g := GroupAll(rows);
      forall k, c :: k in g.groups ==> g.groups[k].Slot(c) == LastWith(rows, k, c)
    decreases |rows|
  {
    if |rows| > 0 {
      var init := rows[..|rows| - 1];
      var x := rows[|rows| - 1];
      GroupAllSlots(init);
      var g0 := GroupAll(init);
      if x.fileName !in g0.groups {
        GroupAllKeys(init);
        forall c ensures LastWith(init, x.fileName, c) == None {
          LastWithAbsent(init, x.fileName, c);
        }
      }
    }
  }

  /** Groups appear in the order in which their documents first appear among the rows. */
  lemma {:induction false} GroupAllOrder(rows: seq<Row>)
    ensures var o := GroupAll(rows).order;
      forall p, q :: 0 <= p < q < |o| ==> FirstPos(rows, o[p]) < FirstPos(rows, o[q])
    decreases |rows|
  {
    if |rows| > 0 {
      var init := rows[..|rows| - 1];
      var x := rows[|rows| - 1];
      assert rows == init + [x];
      GroupAllOrder(init);
      GroupAllKeys(init);
      var g0 := GroupAll(init);
      var o := GroupAll(rows).order;
      forall p | 0 <= p < |g0.order| ensures FirstPos(rows, g0.order[p]) == FirstPos(init, g0.order[p]) < |init| {
        FirstPosSnoc(init, x, g0.order[p]);
      }
      if x.fileName !in g0.groups {
        FirstPosSnoc(init, x, x.fileName);
        assert o == g0.order + [x.fileName];
      }
    }
  }

  /** `Object.values(acc)`: the groups in key-insertion order. */
  function Values(g: Grouping): (vs: seq<Group>)
    requires forall i :: 0 <= i < |g.order| ==> g.order[i] in g.groups
    ensures |vs| == |g.order|
    ensures forall i :: 0 <= i < |vs| ==> vs[i] == g.groups[g.order[i]]
  {
    seq(|g.order|, i requires 0 <= i < |g.order| => g.groups[g.order[i]])
  }

  /** The groups a page lists, before any sort (`Object.values(groupedData)`);
      the whole table of PrabumulihProjectDetail, with `PicOnly`. */
  function GroupedData(rows: seq<Row>, v: ViewFilter): (gs: seq<Group>)
    ensures |gs| == |GroupFold(rows, v).order|
    ensures forall i :: 0 <= i < |gs| ==> gs[i].fileName == GroupFold(rows, v).order[i]
  {
    var k := Kept(rows, v);
    FilterThenGroup(rows, v);
    GroupAllKeys(k);
    GroupAllHeaders(k);
    var g := GroupFold(rows, v);
    assert forall i :: 0 <= i < |g.order| ==> g.order[i] in g.groups;
    var gs := Values(g);
    assert forall i :: 0 <= i < |gs| ==> gs[i].fileName == g.order[i] by {
      forall i | 0 <= i < |gs| ensures gs[i].fileName == g.order[i] {
        assert HeaderFrom(g.groups[g.order[i]], k[FirstPos(k, g.order[i])]);
      }
    }
    gs
  }

  /** Each listed group belongs to a document with a kept row, takes its header
      from the document's first kept row, and holds in slot c the document's last
      kept row of milestone c. */
  lemma GroupedHeadersAndSlots(rows: seq<Row>, v: ViewFilter, i: nat)
    requires i < |GroupedData(rows, v)|
    ensures var k := Kept(rows, v); var g := GroupedData(rows, v)[i];
      FirstPos(k, g.fileName) < |k| && HeaderFrom(g, k[FirstPos(k, g.fileName)])
      && forall c :: g.Slot(c) == LastWith(k, g.fileName, c)
  {
    var k := Kept(rows, v);
    FilterThenGroup(rows, v);
    GroupAllKeys(k);
    GroupAllHeaders(k);
    GroupAllSlots(k);
    var g := GroupFold(rows, v);
    assert g.order[i] in g.groups;
    assert GroupedData(rows, v)[i] == g.groups[g.order[i]];
  }

  /** Every kept row's document is listed. */
  lemma GroupedCoversKept(rows: seq<Row>, v: ViewFilter, j: nat)
    requires j < |Kept(rows, v)|
    ensures exists i :: 0 <= i < |GroupedData(rows, v)| && GroupedData(rows, v)[i].fileName == Kept(rows, v)[j].fileName
  {
    var k := Kept(rows, v);
    FilterThenGroup(rows, v);
    GroupAllKeys(k);
    var g := GroupFold(rows, v);
    var name := k[j].fileName;
    assert FirstPos(k, name) <= j;
    assert name in g.order;
    var i :| 0 <= i < |g.order| && g.order[i] == name;
    assert GroupedData(rows, v)[i].fileName == name;
  }

  /** The listed groups are in order of their documents' first kept rows. */
  lemma GroupedOrder(rows: seq<Row>, v: ViewFilter)
    ensures var k := Kept(rows, v); var gs := GroupedData(rows, v);
      forall i, j :: 0 <= i < j < |gs| ==> FirstPos(k, gs[i].fileName) < FirstPos(k, gs[j].fileName)
  {
    FilterThenGroup(rows, v);
    GroupAllOrder(Kept(rows, v));
  }

  /** Every slot holds a kept row of its own document and milestone. */
  lemma SlotsMatch(rows: seq<Row>, v: ViewFilter, i: nat, c: Category)
    requires i < |GroupedData(rows, v)|
    ensures var s := GroupedData(rows, v)[i].Slot(c);
      s.Some? ==> s.value.category == c && s.value.fileName == GroupedData(rows, v)[i].fileName
                  && Keep(v, s.value) && s.value in rows
  {
    var gs := GroupedData(rows, v);
    GroupedHeadersAndSlots(rows, v, i);
    LastWithSpec(Kept(rows, v), gs[i].fileName, c);
  }

  lemma {:induction false} LastWithSpec(rows: seq<Row>, k: string, c: Category)
    ensures var l := LastWith(rows, k, c);
      l.Some? ==> l.value.fileName == k && l.value.category == c && l.value in rows
    decreases |rows|
  {
    if |rows| > 0 && !(rows[|rows| - 1].fileName == k && rows[|rows| - 1].category == c) {
      LastWithSpec(rows[..|rows| - 1], k, c);
    }
  }

  // ---------------------------------------------------------------------------
  // Sort

  /** The comparator's two keys: `(pic || '').toLowerCase()`, then `file_name.toLowerCase()`. */
  datatype SortKey = SortKey(pic: string, file: string)

  predicate KeyLt(a: SortKey, b: SortKey) {
    StrLt(a.pic, b.pic) || (a.pic == b.pic && StrLt(a.file, b.file))
  }

  function GroupKey(g: Group): SortKey {
    SortKey(ToLower(OrElse(g.pic, "")), ToLower(g.fileName))
  }

  lemma KeyLtTotal(a: SortKey, b: SortKey)
    ensures KeyLt(a, b) || a == b || KeyLt(b, a)
  {
    StrLtTotal(a.pic, b.pic);
    StrLtTotal(a.file, b.file);
  }

  lemma KeyLtAsymmetric(a: SortKey, b: SortKey)
    requires KeyLt(a, b)
    ensures !KeyLt(b, a)
  {
    if StrLt(a.pic, b.pic) {
      StrLtAsymmetric(a.pic, b.pic);
      if b.pic == a.pic { StrLtIrreflexive(a.pic); }
    } else {
      StrLtAsymmetric(a.file, b.file);
      StrLtIrreflexive(a.pic);
    }
  }

  /** "Not below" is transitive: a <= b and b <= c give a <= c. */
  lemma KeyNotLtTransitive(a: SortKey, b: SortKey, c: SortKey)
    requires !KeyLt(b, a) && !KeyLt(c, b)
    ensures !KeyLt(c, a)
  {
    KeyLtTotal(a, b);
    KeyLtTotal(b, c);
    if KeyLt(c, a) {
      if KeyLt(a, b) && KeyLt(b, c) {
        KeyLtTransitive(a, b, c);
        KeyLtAsymmetric(a, c);
      } else if KeyLt(a, b) {
        KeyLtAsymmetric(a, b);
      } else {
        KeyLtAsymmetric(c, a);
      }
    }
  }

  lemma KeyLtTransitive(a: SortKey, b: SortKey, c: SortKey)
    requires KeyLt(a, b) && KeyLt(b, c)
    ensures KeyLt(a, c)
  {
    if StrLt(a.pic, b.pic) && StrLt(b.pic, c.pic) {
      StrLtTransitive(a.pic, b.pic, c.pic);
    } else if StrLt(a.pic, b.pic) || StrLt(b.pic, c.pic) {
    } else {
      StrLtTransitive(a.file, b.file, c.file);
    }
  }

  predicate SortedByKey<T>(s: seq<T>, key: T -> SortKey) {
    forall i, j :: 0 <= i < j < |s| ==> !KeyLt(key(s[j]), key(s[i]))
  }

  /** Places x before the first element that is not below it. */
  function InsertByKey<T(==)>(x: T, s: seq<T>, key: T -> SortKey): (r: seq<T>)
    requires SortedByKey(s, key)
    ensures multiset(r) == multiset(s) + multiset{x}
    ensures forall i :: 0 <= i < |r| ==> r[i] == x || r[i] in s
    ensures SortedByKey(r, key)
    decreases |s|
  {
    if |s| == 0 then [x]
    else if KeyLt(key(s[0]), key(x)) then
      var rest := InsertByKey(x, s[1..], key);
      assert s == [s[0]] + s[1..];
      InsertAfterHead(x, s, rest, key);
      [s[0]] + rest
    else
      InsertBeforeHead(x, s, key);
      [x] + s
  }

  lemma InsertAfterHead<T>(x: T, s: seq<T>, rest: seq<T>, key: T -> SortKey)
    requires |s| > 0 && SortedByKey(s, key) && KeyLt(key(s[0]), key(x))
    requires SortedByKey(rest, key)
    requires forall i :: 0 <= i < |rest| ==> rest[i] == x || rest[i] in s[1..]
    ensures SortedByKey([s[0]] + rest, key)
  {
    var r := [s[0]] + rest;
    forall i, j | 0 <= i < j < |r| ensures !KeyLt(key(r[j]), key(r[i])) {
      if i == 0 {
        if r[j] == x {
          KeyLtAsymmetric(key(s[0]), key(x));
        } else {
          var m :| 0 <= m < |s[1..]| && s[1..][m] == r[j];
          assert s[m + 1] == r[j];
        }
      }
    }
  }

  lemma InsertBeforeHead<T>(x: T, s: seq<T>, key: T -> SortKey)
    requires |s| > 0 && SortedByKey(s, key) && !KeyLt(key(s[0]), key(x))
    ensures SortedByKey([x] + s, key)
  {
    var r := [x] + s;
    forall i, j | 0 <= i < j < |r| ensures !KeyLt(key(r[j]), key(r[i])) {
      if i == 0 && j > 1 {
        KeyNotLtTransitive(key(x), key(s[0]), key(s[j - 1]));
      }
    }
  }

  /** `Array.prototype.sort` with the pages' comparator: a permutation of its input,
      in key order. */
  function SortByKey<T(==)>(s: seq<T>, key: T -> SortKey): (r: seq<T>)
    ensures multiset(r) == multiset(s)
    ensures SortedByKey(r, key)
  {
    if |s| == 0 then []
    else
      assert s == [s[0]] + s[1..];
      InsertByKey(s[0], SortByKey(s[1..], key), key)
  }

  /** `sortedGroupedData`: Area2's groups, a permutation of the filtered groups
      ordered by lower-cased PIC (null as empty) and then lower-cased file name. */
  function SortedGroupedData(rows: seq<Row>, v: ViewFilter): (gs: seq<Group>)
    ensures multiset(gs) == multiset(GroupedData(rows, v))
    ensures forall i, j :: 0 <= i < j < |gs| ==> !KeyLt(GroupKey(gs[j]), GroupKey(gs[i]))
  {
    SortByKey(GroupedData(rows, v), GroupKey)
  }

  // ---------------------------------------------------------------------------
  // Recap

  /** One line of the recap: a document's header and its three statuses. */
  datatype RecapEntry = RecapEntry(
    field: string,
    documentNumber: Option<string>,
    fileName: string,
    pic: Option<string>,
    statusIfr: Status,
    statusIfa: Status,
    statusIfb: Status)
  {
    function WithStatus(c: Category, st: Status): RecapEntry {
      match c
      case IFR => this.(statusIfr := st)
      case IFA => this.(statusIfa := st)
      case IFB => this.(statusIfb := st)
    }
  }

  datatype Recap = Recap(order: seq<string>, entries: map<string, RecapEntry>)

  /** The entry a document's first row opens, every milestone 'Not Yet'. */
  function NewRecapEntry(r: Row): RecapEntry {
    RecapEntry(RowField(r), r.documentNumber, r.fileName, r.pic, NotYet, NotYet, NotYet)
  }

  /** One step of the recap reduce: `status_<c> = item.status_description_<c> || 'Not Yet'`
      for the row's own milestone c. */
  function RecapStep(acc: Recap, r: Row): Recap {
    var base := if r.fileName in acc.entries then acc.entries[r.fileName] else NewRecapEntry(r);
    var order := if r.fileName in acc.entries then acc.order else acc.order + [r.fileName];
    Recap(order, acc.entries[r.fileName := base.WithStatus(r.category, r.Col(r.category).status.GetOr(NotYet))])
  }

  /** `getRecapData`'s reduce over every loaded row; no filter applies. */
  function RecapFold(rows: seq<Row>): (rc: Recap)
    ensures |rc.order| <= |rows|
    ensures forall k :: k in rc.order ==> k in rc.entries
    decreases |rows|
  {
    if |rows| == 0 then Recap([], map[])
    else RecapStep(RecapFold(rows[..|rows| - 1]), rows[|rows| - 1])
  }

  /** The recap reduce, run with the accumulator updated in place. */
  method BuildRecap(rows: seq<Row>) returns (acc: Recap)
    ensures acc == RecapFold(rows)
  {
    acc := Recap([], map[]);
    for i := 0 to |rows|
      invariant acc == RecapFold(rows[..i])
    {
      var item := rows[i];
      assert rows[..i + 1][..i] == rows[..i];
      if item.fileName !in acc.entries {
        acc := Recap(acc.order + [item.fileName], acc.entries[item.fileName := NewRecapEntry(item)]);
      }
      var st := item.Col(item.category).status.GetOr(NotYet);
      acc := acc.(entries := acc.entries[item.fileName := acc.entries[item.fileName].WithStatus(item.category, st)]);
    }
    assert rows[..|rows|] == rows;
  }

  /** The status a group's slot shows: its own column, 'Not Yet' when null or when the slot is empty. */
  function SlotStatus(g: Group, c: Category): Status {
    match g.Slot(c)
    case None => NotYet
    case Some(r) => r.Col(c).status.GetOr(NotYet)
  }

  function RecapOf(g: Group): RecapEntry {
    RecapEntry(g.field, g.documentNumber, g.fileName, g.pic, SlotStatus(g, IFR), SlotStatus(g, IFA), SlotStatus(g, IFB))
  }

  lemma {:induction false} RecapFoldIsGroupAll(rows: seq<Row>)
    ensures var rc := RecapFold(rows); var g := GroupAll(rows);
      rc.order == g.order
      && (forall k :: k in rc.entries <==> k in g.groups)
      && (forall k :: k in g.groups ==> rc.entries[k] == RecapOf(g.groups[k]))
    decreases |rows|
  {
    if |rows| > 0 {
      var init := rows[..|rows| - 1];
      var x := rows[|rows| - 1];
      RecapFoldIsGroupAll(init);
      var g0 := GroupAll(init);
      var g := GroupAll(rows);
      var rc := RecapFold(rows);
      var base := if x.fileName in g0.groups then g0.groups[x.fileName] else NewGroup(x);
      var nb := base.WithSlot(x.category, x);
      assert g.groups[x.fileName] == nb;
      assert RecapOf(nb) == RecapOf(base).WithStatus(x.category, x.Col(x.category).status.GetOr(NotYet)) by {
        match x.category
        case IFR => assert nb.Slot(IFA) == base.Slot(IFA) && nb.Slot(IFB) == base.Slot(IFB);
        case IFA => assert nb.Slot(IFR) == base.Slot(IFR) && nb.Slot(IFB) == base.Slot(IFB);
        case IFB => assert nb.Slot(IFR) == base.Slot(IFR) && nb.Slot(IFA) == base.Slot(IFA);
      }
    }
  }

  /** The recap's entries in key-insertion order. */
  function RecapValues(rc: Recap): (es: seq<RecapEntry>)
    requires forall i :: 0 <= i < |rc.order| ==> rc.order[i] in rc.entries
    ensures |es| == |rc.order|
  {
    seq(|rc.order|, i requires 0 <= i < |rc.order| => rc.entries[rc.order[i]])
  }

  /** With every filter at 'all' the listed groups are the groups of all rows. */
  lemma UnfilteredGroupedData(rows: seq<Row>)
    ensures var g := GroupAll(rows);
      (forall i :: 0 <= i < |g.order| ==> g.order[i] in g.groups)
      && GroupedData(rows, PicOnly("all")) == Values(g)
  {
    AllFiltersKeepEveryRow(rows);
    FilterThenGroup(rows, PicOnly("all"));
    GroupAllKeys(rows);
  }

  /** The recap ignores both filters: before sorting, its entries are the groups of
      the view with every filter at 'all', one per document, each milestone showing
      its slot's status or 'Not Yet'. */
  lemma RecapIsUnfilteredGroups(rows: seq<Row>)
    ensures var rc := RecapFold(rows); var gs := GroupedData(rows, PicOnly("all"));
      (forall i :: 0 <= i < |rc.order| ==> rc.order[i] in rc.entries)
      && |RecapValues(rc)| == |gs|
      && forall i :: 0 <= i < |gs| ==> RecapValues(rc)[i] == RecapOf(gs[i])
  {
    UnfilteredGroupedData(rows);
    RecapFoldIsGroupAll(rows);
    var g := GroupAll(rows);
    var rc := RecapFold(rows);
    assert forall i :: 0 <= i < |rc.order| ==> rc.order[i] in rc.entries;
    var vs := Values(g);
    var es := RecapValues(rc);
    forall i | 0 <= i < |vs| ensures es[i] == RecapOf(vs[i]) {
      assert g.order[i] in g.groups;
    }
  }

  function RecapKey(e: RecapEntry): SortKey {
    SortKey(ToLower(OrElse(e.pic, "")), ToLower(e.fileName))
  }

  /** The recap entry of a group sorts exactly where the group does. */
  lemma RecapKeyIsGroupKey(g: Group)
    ensures RecapKey(RecapOf(g)) == GroupKey(g)
  {
  }

  /** `getRecapData()`: the entries sorted with the view's comparator. */
  function RecapData(rows: seq<Row>): (es: seq<RecapEntry>)
    ensures var rc := RecapFold(rows);
      (forall i :: 0 <= i < |rc.order| ==> rc.order[i] in rc.entries)
      && multiset(es) == multiset(RecapValues(rc))
      && forall i, j :: 0 <= i < j < |es| ==> !KeyLt(RecapKey(es[j]), RecapKey(es[i]))
  {
    RecapIsUnfilteredGroups(rows);
    SortByKey(RecapValues(RecapFold(rows)), RecapKey)
  }

  // ---------------------------------------------------------------------------
  // Rows shown per group

  /** `statusCategoryFilter`: 'ALL' or one milestone. */
  datatype CategoryFilter = AllCategories | OnlyCategory(only: Category)

  predicate CategoryShown(f: CategoryFilter, c: Category) {
    f.AllCategories? || f.only == c
  }

  /** Area2: the slots pushed in the order IFR, IFA, IFB, skipping empty slots and
      milestones the filter hides. */
  function SelectItems(g: Group, f: CategoryFilter): (items: seq<Row>)
    ensures |items| <= |VisibleCategories(f)|
    ensures forall x :: x in items ==> Some(x) == g.ifr || Some(x) == g.ifa || Some(x) == g.ifb
  {
    (if CategoryShown(f, IFR) && g.ifr.Some? then [g.ifr.value] else [])
    + (if CategoryShown(f, IFA) && g.ifa.Some? then [g.ifa.value] else [])
    + (if CategoryShown(f, IFB) && g.ifb.Some? then [g.ifb.value] else [])
  }

  function CategoryIndex(c: Category): nat {
    match c
    case IFR => 0
    case IFA => 1
    case IFB => 2
  }

  /** A group whose slots hold rows of their own milestone, as every listed group does. */
  predicate SlotsTyped(g: Group) {
    forall c :: g.Slot(c).Some? ==> g.Slot(c).value.category == c
  }

  /** The rows shown for a group are exactly its filled, visible slots, at most one
      per milestone and in milestone order. */
  lemma SelectItemsSpec(g: Group, f: CategoryFilter)
    requires SlotsTyped(g)
    ensures var items := SelectItems(g, f);
      (forall r :: r in items <==> exists c :: CategoryShown(f, c) && g.Slot(c) == Some(r))
      && (forall i, j :: 0 <= i < j < |items| ==> CategoryIndex(items[i].category) < CategoryIndex(items[j].category))
  {
    assert g.Slot(IFR) == g.ifr && g.Slot(IFA) == g.ifa && g.Slot(IFB) == g.ifb;
    var items := SelectItems(g, f);
    forall r | r in items ensures exists c :: CategoryShown(f, c) && g.Slot(c) == Some(r) {
      if CategoryShown(f, IFR) && g.ifr == Some(r) {
      } else if CategoryShown(f, IFA) && g.ifa == Some(r) {
        assert g.Slot(IFA) == Some(r);
      } else {
        assert g.Slot(IFB) == Some(r);
      }
    }
  }

  /** `visibleCategories`: every milestone for 'ALL', otherwise the chosen one. */
  function VisibleCategories(f: CategoryFilter): (cs: seq<Category>)
    ensures forall c :: c in cs <==> CategoryShown(f, c)
    ensures forall i, j :: 0 <= i < j < |cs| ==> CategoryIndex(cs[i]) < CategoryIndex(cs[j])
  {
    CategoriesComplete();
    if f.AllCategories? then Categories else [f.only]
  }

  /** The status, dates and submit status PrabumulihProjectDetail shows on one line. */
  datatype Line = Line(
    category: Category,
    item: Option<Row>,
    status: Option<Status>,
    target: Option<int>,
    actual: Option<int>,
    explanation: Explanation,
    deleteOffered: bool)

  function RenderLine(g: Group, c: Category, isFirst: bool, isAdmin: bool, offsetMs: int): Line {
    var item := g.Slot(c);
    var target := if item.Some? then item.value.Col(c).targetSubmit else None;
    var actual := if item.Some? then item.value.Col(c).actualSubmit else None;
    var status := if item.Some? then item.value.Col(c).status else Some(NotYet);
    Line(c, item, status, target, actual, SubmitExplanation(target, actual, offsetMs), isAdmin && isFirst && item.Some?)
  }

  /** One line per visible milestone, present or not. */
  function RenderGroup(g: Group, f: CategoryFilter, isAdmin: bool, offsetMs: int): (lines: seq<Line>)
    ensures |lines| == |VisibleCategories(f)|
  {
    var cs := VisibleCategories(f);
    seq(|cs|, i requires 0 <= i < |cs| => RenderLine(g, cs[i], i == 0, isAdmin, offsetMs))
  }

  /** A missing slot still renders a line, showing 'Not Yet' and no dates; only
      an administrator sees the delete action, on the first line only, and only when
      that line has a row. */
  lemma RenderGroupSpec(g: Group, f: CategoryFilter, isAdmin: bool, offsetMs: int, i: nat)
    requires i < |VisibleCategories(f)|
    ensures var l := RenderGroup(g, f, isAdmin, offsetMs)[i];
      l.category == VisibleCategories(f)[i] && l.item == g.Slot(l.category)
      && (l.item.None? ==> l.status == Some(NotYet) && l.target.None? && l.actual.None? && l.explanation == NoDates)
      && (l.deleteOffered <==> isAdmin && i == 0 && l.item.Some?)
  {
  }

  /** The rows behind the lines that have one. */
  function LineItems(lines: seq<Line>): seq<Row> {
    if |lines| == 0 then []
    else (if lines[0].item.Some? then [lines[0].item.value] else []) + LineItems(lines[1..])
  }

  /** Both pages show the same records for a group under the same milestone filter:
      PrabumulihProjectDetail only adds placeholder lines for empty slots. */
  lemma RenderedItemsAreSelected(g: Group, f: CategoryFilter, isAdmin: bool, offsetMs: int)
    ensures LineItems(RenderGroup(g, f, isAdmin, offsetMs)) == SelectItems(g, f)
  {
    var lines := RenderGroup(g, f, isAdmin, offsetMs);
    var cs := VisibleCategories(f);
    forall i | 0 <= i < |cs| ensures lines[i].item == g.Slot(cs[i]) {
      RenderGroupSpec(g, f, isAdmin, offsetMs, i);
    }
    if f.AllCategories? {
      assert cs == [IFR, IFA, IFB];
      assert lines[2..][1..] == [];
      assert LineItems(lines[2..]) == (if g.ifb.Some? then [g.ifb.value] else []);
      assert lines[1..][1..] == lines[2..];
      assert LineItems(lines[1..]) == (if g.ifa.Some? then [g.ifa.value] else []) + LineItems(lines[2..]);
    } else {
      assert lines[1..] == [];
    }
  }

  // ---------------------------------------------------------------------------
  // Submit status

  /** `date.setHours(0, 0, 0, 0)` for a fixed offset of local time from UTC: the local day. */
  function LocalDay(ms: int, offsetMs: int): int {
    (ms + offsetMs) / DayMs
  }

  lemma LocalDayMonotone(x: int, y: int, offsetMs: int)
    requires x <= y
    ensures LocalDay(x, offsetMs) <= LocalDay(y, offsetMs)
  {
    var a := x + offsetMs;
    var b := y + offsetMs;
    assert a == DayMs * (a / DayMs) + a % DayMs;
    assert b == DayMs * (b / DayMs) + b % DayMs;
  }

  /** `getSubmitExplanation`'s four results. */
  datatype Explanation = NoDates | OverDue | OnTime | Ahead

  function ExplanationText(e: Explanation): string {
    match e
    case NoDates => "-"
    case OverDue => "Over Due"
    case OnTime => "On Time"
    case Ahead => "Ahead"
  }

  /** `getSubmitExplanation`: both dates' local days compared; a missing date gives '-'. */
  function SubmitExplanation(target: Option<int>, actual: Option<int>, offsetMs: int): (e: Explanation)
    ensures e == NoDates <==> target.None? || actual.None?
    ensures target.Some? && actual.Some? && actual.value <= target.value ==> e != OverDue
    ensures target.Some? && actual.Some? && target.value <= actual.value ==> e != Ahead
    ensures e == OnTime ==> LocalDay(target.value, offsetMs) == LocalDay(actual.value, offsetMs)
  {
    if target.None? || actual.None? then NoDates
    else
      var t := LocalDay(target.value, offsetMs);
      var a := LocalDay(actual.value, offsetMs);
      assert actual.value <= target.value ==> a <= t by {
        if actual.value <= target.value { LocalDayMonotone(actual.value, target.value, offsetMs); }
      }
      assert target.value <= actual.value ==> t <= a by {
        if target.value <= actual.value { LocalDayMonotone(target.value, actual.value, offsetMs); }
      }
      if a > t then OverDue else if a == t then OnTime else Ahead
  }

  function Rank(e: Explanation): int {
    match e
    case NoDates => -1
    case Ahead => 0
    case OnTime => 1
    case OverDue => 2
  }

  /** Only the days count: a submission on the target's local day is on time at any
      hour, and a later submission never classifies better than an earlier one. */
  lemma ExplanationByDay(target: int, a1: int, a2: int, offsetMs: int)
    requires a1 <= a2
    ensures LocalDay(a1, offsetMs) == LocalDay(target, offsetMs) ==> SubmitExplanation(Some(target), Some(a1), offsetMs) == OnTime
    ensures 0 <= Rank(SubmitExplanation(Some(target), Some(a1), offsetMs))
              <= Rank(SubmitExplanation(Some(target), Some(a2), offsetMs))
  {
    LocalDayMonotone(a1, a2, offsetMs);
  }

  // ---------------------------------------------------------------------------
  // Known PICs

  predicate StrictlySorted(s: seq<string>) {
    forall i, j :: 0 <= i < j < |s| ==> StrLt(s[i], s[j])
  }

  /** Adds x to a strictly sorted list of distinct strings. */
  function InsertUnique(x: string, s: seq<string>): (r: seq<string>)
    requires StrictlySorted(s)
    ensures StrictlySorted(r)
    ensures forall y :: y in r <==> y == x || y in s
    decreases |s|
  {
    if |s| == 0 then [x]
    else if x == s[0] then s
    else if StrLt(x, s[0]) then
      assert forall j :: 0 < j < |s| ==> StrLt(x, s[j]) by {
        forall j | 0 < j < |s| ensures StrLt(x, s[j]) { StrLtTransitive(x, s[0], s[j]); }
      }
      [x] + s
    else
      StrLtTotal(x, s[0]);
      var rest := InsertUnique(x, s[1..]);
      assert forall y :: y in rest ==> StrLt(s[0], y);
      [s[0]] + rest
  }

  /** The PICs of the given rows that `.not('pic', 'is', null)` and `filter(Boolean)` keep. */
  function CollectPics(rows: seq<Row>, acc: seq<string>): (r: seq<string>)
    requires StrictlySorted(acc)
    ensures StrictlySorted(r)
    ensures forall y :: y in r <==> y in acc || (y != "" && exists i :: 0 <= i < |rows| && rows[i].pic == Some(y))
    decreases |rows|
  {
    if |rows| == 0 then acc
    else
      var acc' := if rows[0].pic.Some? && rows[0].pic.value != "" then InsertUnique(rows[0].pic.value, acc) else acc;
      var r := CollectPics(rows[1..], acc');
      assert forall y :: (exists i :: 0 <= i < |rows| && rows[i].pic == Some(y))
                         <==> rows[0].pic == Some(y) || (exists i :: 0 <= i < |rows[1..]| && rows[1..][i].pic == Some(y)) by {
        forall y | exists i :: 0 <= i < |rows| && rows[i].pic == Some(y)
          ensures rows[0].pic == Some(y) || (exists i :: 0 <= i < |rows[1..]| && rows[1..][i].pic == Some(y)) {
          var i :| 0 <= i < |rows| && rows[i].pic == Some(y);
          if i > 0 { assert rows[1..][i - 1] == rows[i]; }
        }
      }
      r
  }

  /** `fetchExistingPics`: the distinct non-empty PICs of the project's rows, in
      `sort()` order. */
  function ExistingPics(rows: seq<Row>): (r: seq<string>)
    ensures StrictlySorted(r)
    ensures forall y :: y in r <==> y != "" && exists i :: 0 <= i < |rows| && rows[i].pic == Some(y)
  {
    CollectPics(rows, [])
  }
}
