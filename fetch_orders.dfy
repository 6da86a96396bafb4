/** The shaping of the order listing: which columns are selected, how each
    result row becomes a dictionary in the preferred field order, and how
    the SQL text and its parameters are put together for the open and the
    closed bucket. The database is a parameter: a function from the SQL
    text and its parameters to the result rows. */
module FetchOrders {
  import opened Wrappers
  import opened Strings

  /** The preferred field order of the output. */
  const OrderFields: seq<string> := [
    "id", "created_at", "market", "location_type", "location",
    "hour_start_utc", "side", "qty_mwh", "limit_price", "status",
    "approved_at", "approval_rt_interval_start_utc", "approval_rt_lmp",
    "approval_rt_source", "reject_reason"
  ]

  const OpenStatuses: set<string> := {"PENDING"}
  const ClosedStatuses: set<string> := {"APPROVED", "REJECTED", "UNFILLED", "CLEARED"}

  /** `sorted(list(OPEN_STATUSES))` and `sorted(list(CLOSED_STATUSES))`. */
  const OpenStatusList: seq<string> := ["PENDING"]
  const ClosedStatusList: seq<string> := ["APPROVED", "CLEARED", "REJECTED", "UNFILLED"]

  /** A column value as SQLite returns it, and an SQL parameter. */
  datatype Value = Null | Integer(i: int) | Real(r: real) | Text(t: string)

  /** A result row, looked up by column name. */
  type Row = string -> Value

  /** A dictionary, as its entries in insertion order. */
  type Dict = seq<(string, Value)>

  predicate Distinct(s: seq<string>) {
    forall i, j :: 0 <= i < j < |s| ==> s[i] != s[j]
  }

  /** The open and closed status lists are those sets in sorted order, and
      no status is both open and closed. */
  lemma StatusLists()
    ensures OpenStatuses !! ClosedStatuses
    ensures (set s | s in OpenStatusList) == OpenStatuses
    ensures (set s | s in ClosedStatusList) == ClosedStatuses
    ensures forall i, j :: 0 <= i < j < |ClosedStatusList| ==> Less(ClosedStatusList[i], ClosedStatusList[j])
  {
    assert Less("APPROVED", "CLEARED");
    assert Less("CLEARED", "REJECTED");
    assert Less("REJECTED", "UNFILLED");
    LessTransitive("APPROVED", "CLEARED", "REJECTED");
    LessTransitive("APPROVED", "REJECTED", "UNFILLED");
    LessTransitive("CLEARED", "REJECTED", "UNFILLED");
  }

  function IndexIn(s: seq<string>, x: string): (r: nat)
    ensures r <= |s|
    ensures r < |s| <==> x in s
    ensures r < |s| ==> s[r] == x && forall i :: 0 <= i < r ==> s[i] != x
  {
    if |s| == 0 then 0
    else if s[0] == x then 0
    else 1 + IndexIn(s[1..], x)
  }

  lemma IndexOfDistinct(s: seq<string>, k: nat)
    requires Distinct(s) && k < |s|
    ensures IndexIn(s, s[k]) == k
  {
  }

  /** The preferred fields are distinct. */
  lemma OrderFieldsDistinct()
    ensures Distinct(OrderFields)
  {
  }

  /** No preferred field holds a placeholder. */
  lemma OrderFieldsNoPlaceholder()
    ensures forall f :: f in OrderFields ==> '?' !in f
  {
  }

  /** `[f for f in fs if f in existing]`. */
  function KeepExisting(fs: seq<string>, existing: seq<string>): (r: seq<string>)
    ensures |r| <= |fs|
  {
    if |fs| == 0 then []
    else (if fs[0] in existing then [fs[0]] else []) + KeepExisting(fs[1..], existing)
  }

  /** Filtering a distinct list keeps exactly the members present, each
      once, in the list's order: positions in `order` strictly increase. */
  lemma {:induction false} KeepExistingSpec(order: seq<string>, k: nat, existing: seq<string>)
    requires Distinct(order) && k <= |order|
    ensures var r := KeepExisting(order[k..], existing);
      && (forall f :: f in r <==> f in order[k..] && f in existing)
      && (forall i :: 0 <= i < |r| ==> k <= IndexIn(order, r[i]) < |order|)
      && (forall i, j :: 0 <= i < j < |r| ==> IndexIn(order, r[i]) < IndexIn(order, r[j]))
    decreases |order| - k
  {
    if k < |order| {
      KeepExistingSpec(order, k + 1, existing);
      IndexOfDistinct(order, k);
      assert order[k..][1..] == order[k + 1..];
      assert order[k..] == [order[k]] + order[k + 1..];
      var r := KeepExisting(order[k..], existing);
      var rest := KeepExisting(order[k + 1..], existing);
      assert r == (if order[k] in existing then [order[k]] else []) + rest;
      forall f | f in order[k + 1..]
        ensures k < IndexIn(order, f)
      {
        var p :| 0 <= p < |order[k + 1..]| && order[k + 1..][p] == f;
        IndexOfDistinct(order, k + 1 + p);
      }
    }
  }

  /** `_build_select`: the SQL column list and the kept fields. */
  function BuildSelect(existing: seq<string>): (r: (string, seq<string>)) {
    var fields := KeepExisting(OrderFields, existing);
    var fields' := if "reject_reason" in existing && "reject_reason" !in fields then fields + ["reject_reason"] else fields;
    (Join(fields', ", "), fields')
  }

  /** The kept fields are exactly the preferred fields that exist, each
      once and in the preferred order; the extra `reject_reason` append
      never applies, and the column list holds no placeholder. */
  lemma BuildSelectSpec(existing: seq<string>)
    ensures var (sql, fields) := BuildSelect(existing);
      && fields == KeepExisting(OrderFields, existing)
      && (forall f :: f in fields <==> f in OrderFields && f in existing)
      && Distinct(fields)
      && (forall i, j :: 0 <= i < j < |fields| ==> IndexIn(OrderFields, fields[i]) < IndexIn(OrderFields, fields[j]))
      && sql == Join(fields, ", ")
      && CountChar(sql, '?') == 0
  {
    OrderFieldsDistinct();
    OrderFieldsNoPlaceholder();
    KeepExistingSpec(OrderFields, 0, existing);
    assert OrderFields[0..] == OrderFields;
    var fields := KeepExisting(OrderFields, existing);
    assert OrderFields[14] == "reject_reason";
    CountCharJoin(fields, ", ", '?');
    NoPlaceholderIn(fields);
  }

  lemma {:induction false} NoPlaceholderIn(fields: seq<string>)
    requires forall f :: f in fields ==> '?' !in f
    ensures CountAll(fields, '?') == 0
  {
    if |fields| > 0 {
      assert fields[0] in fields;
      NoPlaceholderIn(fields[1..]);
    }
  }

  function Keys(d: Dict): (ks: seq<string>)
    ensures |ks| == |d| && forall i :: 0 <= i < |d| ==> ks[i] == d[i].0
  {
    seq(|d|, i requires 0 <= i < |d| => d[i].0)
  }

  /** `d[k]`: the value stored under `k`. */
  function Lookup(d: Dict, k: string): Value
    requires k in Keys(d)
  {
    d[IndexIn(Keys(d), k)].1
  }

  /** The fields once each, in order of first occurrence. */
  function Dedup(s: seq<string>): (r: seq<string>)
    ensures Distinct(r)
    ensures forall x :: x in r <==> x in s
  {
    if |s| == 0 then []
    else
      var p := Dedup(s[..|s| - 1]);
      assert forall x :: x in s <==> x in s[..|s| - 1] || x == s[|s| - 1];
      if s[|s| - 1] in p then p else p + [s[|s| - 1]]
  }

  /** The numeric columns `_rows_to_dicts` turns into floats. */
  const NumericFields: set<string> := {"qty_mwh", "limit_price", "approval_rt_lmp"}

  /** `float(v)` on a numeric column: an integer becomes a real, anything
      else (a real, null, text) is kept. */
  function Coerce(k: string, v: Value): (w: Value)
    ensures k !in NumericFields ==> w == v
    ensures w.Null? <==> v.Null?
    ensures v.Integer? && k in NumericFields ==> w == Real(v.i as real)
  {
    if k in NumericFields && v.Integer? then Real(v.i as real) else v
  }

  /** `{k: r[k] for k in fields}`, with the numeric columns coerced. */
  function Project(row: Row, fields: seq<string>): (d: Dict)
    ensures Keys(d) == Dedup(fields)
    ensures forall i :: 0 <= i < |d| ==> d[i].1 == Coerce(d[i].0, row(d[i].0))
  {
    var ks := Dedup(fields);
    seq(|ks|, i requires 0 <= i < |ks| => (ks[i], Coerce(ks[i], row(ks[i]))))
  }

  /** The entries for the first `n` fields of `order` present in `d`, in
      that order. */
  function Known(order: seq<string>, d: Dict, n: nat): Dict
    requires n <= |order|
  {
    if n == 0 then []
    else
      var f := order[n - 1];
      Known(order, d, n - 1) + (if f in Keys(d) then [(f, Lookup(d, f))] else [])
  }

  /** The entries among the first `n` of `d` whose key is not in `order`,
      in `d`'s order. */
  function Extras(order: seq<string>, d: Dict, n: nat): Dict
    requires n <= |d|
  {
    if n == 0 then []
    else Extras(order, d, n - 1) + (if d[n - 1].0 in order then [] else [d[n - 1]])
  }

  /** The dictionary one row becomes: the fields of `order` first, in that
      order, then any others in their original order. */
  function Reordered(order: seq<string>, d: Dict): Dict {
    Known(order, d, |order|) + Extras(order, d, |d|)
  }

  /** Every entry of `e` is a key of `d` with its value there. */
  ghost predicate EntriesOf(d: Dict, e: Dict) {
    forall i :: 0 <= i < |e| ==> e[i].0 in Keys(d) && e[i].1 == Lookup(d, e[i].0)
  }

  /** Every key of `e` is among the first `n` of `order`. */
  ghost predicate RanksBelow(order: seq<string>, e: Dict, n: nat) {
    forall i :: 0 <= i < |e| ==> e[i].0 in order && IndexIn(order, e[i].0) < n
  }

  /** The keys of `e` appear in the order of `order`. */
  ghost predicate Ascending(order: seq<string>, e: Dict) {
    forall i, j :: 0 <= i < j < |e| ==> IndexIn(order, e[i].0) < IndexIn(order, e[j].0)
  }

  /** Every entry of `e` is one of `src`, with a key outside `order`. */
  ghost predicate Outside(order: seq<string>, src: Dict, e: Dict) {
    forall i :: 0 <= i < |e| ==> e[i] in src && e[i].0 !in order
  }

  /** The keys of `order` come first in `out`, in the order of `order`. */
  ghost predicate PreferredFirst(order: seq<string>, out: Dict) {
    forall i, j :: 0 <= i < j < |out| && out[j].0 in order ==>
      out[i].0 in order && IndexIn(order, out[i].0) < IndexIn(order, out[j].0)
  }

  lemma KeysConcat(a: Dict, b: Dict)
    ensures Keys(a + b) == Keys(a) + Keys(b)
  {
  }

  lemma {:induction false} KnownMembers(order: seq<string>, d: Dict, n: nat)
    requires n <= |order|
    ensures forall k :: k in Keys(Known(order, d, n)) <==> k in order[..n] && k in Keys(d)
  {
    if n > 0 {
      KnownMembers(order, d, n - 1);
      var f := order[n - 1];
      KnownUnfold(order, d, n);
      KeysConcat(Known(order, d, n - 1), KnownTail(order, d, n - 1));
      assert order[..n] == order[..n - 1] + [f];
      assert Keys(KnownTail(order, d, n - 1)) == if f in Keys(d) then [f] else [];
    }
  }

  /** The `n`-th step of `Known`: what it appends. */
  function KnownTail(order: seq<string>, d: Dict, n: nat): Dict
    requires n < |order|
  {
    var f := order[n];
    if f in Keys(d) then [(f, Lookup(d, f))] else []
  }

  lemma KnownUnfold(order: seq<string>, d: Dict, n: nat)
    requires 0 < n <= |order|
    ensures Known(order, d, n) == Known(order, d, n - 1) + KnownTail(order, d, n - 1)
  {
  }

  lemma {:induction false} KnownRanks(order: seq<string>, d: Dict, n: nat)
    requires Distinct(order) && n <= |order|
    ensures RanksBelow(order, Known(order, d, n), n)
    ensures Ascending(order, Known(order, d, n))
  {
    if n > 0 {
      KnownRanks(order, d, n - 1);
      IndexOfDistinct(order, n - 1);
      KnownUnfold(order, d, n);
      var prev := Known(order, d, n - 1);
      var tail := KnownTail(order, d, n - 1);
      var kn := prev + tail;
      forall i | 0 <= i < |kn|
        ensures kn[i].0 in order && IndexIn(order, kn[i].0) < n
      {
        if i >= |prev| {
          assert kn[i] == tail[0];
        }
      }
      forall i, j | 0 <= i < j < |kn|
        ensures IndexIn(order, kn[i].0) < IndexIn(order, kn[j].0)
      {
        if j >= |prev| {
          assert kn[j] == tail[0] && kn[i] == prev[i];
        }
      }
    }
  }

  lemma {:induction false} KnownValues(order: seq<string>, d: Dict, n: nat)
    requires n <= |order|
    ensures EntriesOf(d, Known(order, d, n))
  {
    if n > 0 {
      KnownValues(order, d, n - 1);
      KnownUnfold(order, d, n);
      var prev := Known(order, d, n - 1);
      var tail := KnownTail(order, d, n - 1);
      var kn := prev + tail;
      forall i | 0 <= i < |kn|
        ensures kn[i].0 in Keys(d) && kn[i].1 == Lookup(d, kn[i].0)
      {
        if i >= |prev| {
          assert kn[i] == tail[0];
        } else {
          assert kn[i] == prev[i];
        }
      }
    }
  }

  /** The `n`-th step of `Extras`: what it appends. */
  function ExtrasTail(order: seq<string>, d: Dict, n: nat): Dict
    requires n < |d|
  {
    if d[n].0 in order then [] else [d[n]]
  }

  lemma ExtrasUnfold(order: seq<string>, d: Dict, n: nat)
    requires 0 < n <= |d|
    ensures Extras(order, d, n) == Extras(order, d, n - 1) + ExtrasTail(order, d, n - 1)
  {
  }

  lemma {:induction false} ExtrasMembers(order: seq<string>, d: Dict, n: nat)
    requires n <= |d|
    ensures forall k :: k in Keys(Extras(order, d, n)) <==> k in Keys(d)[..n] && k !in order
  {
    if n > 0 {
      ExtrasMembers(order, d, n - 1);
      ExtrasUnfold(order, d, n);
      KeysConcat(Extras(order, d, n - 1), ExtrasTail(order, d, n - 1));
      assert Keys(d)[..n] == Keys(d)[..n - 1] + [d[n - 1].0];
      assert Keys(ExtrasTail(order, d, n - 1)) == if d[n - 1].0 in order then [] else [d[n - 1].0];
    }
  }

  lemma {:induction false} ExtrasEntries(order: seq<string>, d: Dict, n: nat)
    requires n <= |d|
    ensures Outside(order, d[..n], Extras(order, d, n))
  {
    if n > 0 {
      ExtrasEntries(order, d, n - 1);
      ExtrasUnfold(order, d, n);
      var prev := Extras(order, d, n - 1);
      var tail := ExtrasTail(order, d, n - 1);
      var e := prev + tail;
      assert d[..n] == d[..n - 1] + [d[n - 1]];
      forall i | 0 <= i < |e|
        ensures e[i] in d[..n] && e[i].0 !in order
      {
        if i >= |prev| {
          assert e[i] == tail[0] == d[n - 1];
        } else {
          assert e[i] == prev[i];
        }
      }
    }
  }

  /** Extras keep distinct keys distinct. */
  lemma {:induction false} ExtrasDistinct(order: seq<string>, d: Dict, n: nat)
    requires n <= |d| && Distinct(Keys(d))
    ensures Distinct(Keys(Extras(order, d, n)))
  {
    if n > 0 {
      ExtrasDistinct(order, d, n - 1);
      ExtrasMembers(order, d, n - 1);
      assert d[n - 1].0 !in Keys(d)[..n - 1];
      ExtrasUnfold(order, d, n);
      KeysConcat(Extras(order, d, n - 1), ExtrasTail(order, d, n - 1));
      assert Keys(ExtrasTail(order, d, n - 1)) == if d[n - 1].0 in order then [] else [d[n - 1].0];
    }
  }

  /** A value found in `d` is the one `Lookup` gives, when keys are distinct. */
  lemma LookupEntry(d: Dict, p: nat)
    requires Distinct(Keys(d)) && p < |d|
    ensures Lookup(d, d[p].0) == d[p].1
  {
    IndexOfDistinct(Keys(d), p);
  }

  lemma KnownDistinct(order: seq<string>, d: Dict)
    requires Distinct(order)
    ensures Distinct(Keys(Known(order, d, |order|)))
  {
    var kn := Known(order, d, |order|);
    KnownRanks(order, d, |order|);
    forall i, j | 0 <= i < j < |kn|
      ensures Keys(kn)[i] != Keys(kn)[j]
    {
      assert IndexIn(order, kn[i].0) < IndexIn(order, kn[j].0);
    }
  }

  /** One row's dictionary has exactly the keys of `d`, each once. */
  lemma ReorderedKeys(order: seq<string>, d: Dict)
    requires Distinct(order) && Distinct(Keys(d))
    ensures forall k :: k in Keys(Reordered(order, d)) <==> k in Keys(d)
    ensures Distinct(Keys(Reordered(order, d)))
  {
    var kn := Known(order, d, |order|);
    var ex := Extras(order, d, |d|);
    assert Reordered(order, d) == kn + ex;
    KnownMembers(order, d, |order|);
    ExtrasMembers(order, d, |d|);
    KnownDistinct(order, d);
    ExtrasDistinct(order, d, |d|);
    KeysConcat(kn, ex);
    assert order[..|order|] == order;
    assert Keys(d)[..|d|] == Keys(d);
    var ks := Keys(kn + ex);
    forall i, j | 0 <= i < j < |ks|
      ensures ks[i] != ks[j]
    {
      if i < |kn| && j >= |kn| {
        assert ks[i] == Keys(kn)[i] && ks[j] == Keys(ex)[j - |kn|];
        assert ks[i] in Keys(kn) && ks[j] in Keys(ex);
      } else if i < |kn| {
        assert ks[i] == Keys(kn)[i] && ks[j] == Keys(kn)[j];
      } else {
        assert ks[i] == Keys(ex)[i - |kn|] && ks[j] == Keys(ex)[j - |kn|];
      }
    }
  }

  lemma ExtrasValues(order: seq<string>, d: Dict)
    requires Distinct(Keys(d))
    ensures EntriesOf(d, Extras(order, d, |d|))
  {
    var ex := Extras(order, d, |d|);
    ExtrasEntries(order, d, |d|);
    assert d[..|d|] == d;
    forall i | 0 <= i < |ex|
      ensures ex[i].0 in Keys(d) && ex[i].1 == Lookup(d, ex[i].0)
    {
      assert ex[i] in d;
      var p :| 0 <= p < |d| && d[p] == ex[i];
      assert Keys(d)[p] == ex[i].0;
      LookupEntry(d, p);
    }
  }

  /** Each entry of one row's dictionary carries its value in `d`. */
  lemma ReorderedValues(order: seq<string>, d: Dict)
    requires Distinct(Keys(d))
    ensures EntriesOf(d, Reordered(order, d))
  {
    var kn := Known(order, d, |order|);
    var ex := Extras(order, d, |d|);
    var out := kn + ex;
    assert Reordered(order, d) == out;
    KnownValues(order, d, |order|);
    ExtrasValues(order, d);
    forall i | 0 <= i < |out|
      ensures out[i].0 in Keys(d) && out[i].1 == Lookup(d, out[i].0)
    {
      if i < |kn| {
        assert out[i] == kn[i];
      } else {
        assert out[i] == ex[i - |kn|];
      }
    }
  }

  /** The fields of `order` come first, in that order. */
  lemma ReorderedOrder(order: seq<string>, d: Dict)
    requires Distinct(order)
    ensures PreferredFirst(order, Reordered(order, d))
  {
    var kn := Known(order, d, |order|);
    var ex := Extras(order, d, |d|);
    var out := kn + ex;
    assert Reordered(order, d) == out;
    KnownRanks(order, d, |order|);
    ExtrasEntries(order, d, |d|);
    forall i, j | 0 <= i < j < |out| && out[j].0 in order
      ensures out[i].0 in order && IndexIn(order, out[i].0) < IndexIn(order, out[j].0)
    {
      if j < |kn| {
        assert out[i] == kn[i] && out[j] == kn[j];
      }
    }
  }

  /** `_rows_to_dicts`, specified: one dictionary per row, in row order. */
  function RowDicts(rows: seq<Row>, fields: seq<string>): (out: seq<Dict>)
    ensures |out| == |rows|
  {
    seq(|rows|, i requires 0 <= i < |rows| => Reordered(OrderFields, Project(rows[i], fields)))
  }

  /** Each row's dictionary holds exactly the selected fields, each once,
      with the row's values (numeric columns coerced), the preferred
      fields first in the preferred order. */
  lemma RowDictsSpec(rows: seq<Row>, fields: seq<string>, i: nat)
    requires i < |rows|
    ensures var out := RowDicts(rows, fields)[i];
      && (forall k :: k in Keys(out) <==> k in fields)
      && Distinct(Keys(out))
      && (forall j :: 0 <= j < |out| ==> out[j].1 == Coerce(out[j].0, rows[i](out[j].0)))
      && (forall j, l :: 0 <= j < l < |out| && out[l].0 in OrderFields ==>
            out[j].0 in OrderFields && IndexIn(OrderFields, out[j].0) < IndexIn(OrderFields, out[l].0))
  {
    OrderFieldsDistinct();
    var d := Project(rows[i], fields);
    ReorderedKeys(OrderFields, d);
    ReorderedValues(OrderFields, d);
    ReorderedOrder(OrderFields, d);
    var out := Reordered(OrderFields, d);
    forall j | 0 <= j < |out|
      ensures out[j].1 == Coerce(out[j].0, rows[i](out[j].0))
    {
      var k := out[j].0;
      assert d[IndexIn(Keys(d), k)].0 == k;
    }
  }

  /** Whether the second loop of `_rows_to_dicts` adds the `j`-th entry:
      exactly when its key is not a preferred field. */
  lemma ExtraStep(order: seq<string>, d: Dict, j: nat)
    requires Distinct(Keys(d)) && j < |d|
    ensures d[j].0 !in Keys(Known(order, d, |order|) + Extras(order, d, j)) <==> d[j].0 !in order
  {
    KnownMembers(order, d, |order|);
    ExtrasMembers(order, d, j);
    KeysConcat(Known(order, d, |order|), Extras(order, d, j));
    assert order[..|order|] == order;
    assert d[j].0 !in Keys(d)[..j];
    assert Keys(d)[j] == d[j].0;
  }

  /** The loops of `_rows_to_dicts` for one row `d`. */
  method Reorder(d: Dict) returns (ordered: Dict)
    requires Distinct(Keys(d))
    ensures ordered == Reordered(OrderFields, d)
  {
    ordered := [];
    for j := 0 to |OrderFields|
      invariant ordered == Known(OrderFields, d, j)
    {
      var k := OrderFields[j];
      if k in Keys(d) {
        ordered := ordered + [(k, Lookup(d, k))];
      }
    }
    ghost var kn := ordered;
    for j := 0 to |d|
      invariant ordered == kn + Extras(OrderFields, d, j)
    {
      ExtraStep(OrderFields, d, j);
      if d[j].0 !in Keys(ordered) {
        ordered := ordered + [d[j]];
      }
    }
  }

  /** `_rows_to_dicts`. */
  method RowsToDicts(rows: seq<Row>, fields: seq<string>) returns (out: seq<Dict>)
    ensures out == RowDicts(rows, fields)
  {
    out := [];
    for i := 0 to |rows|
      invariant out == RowDicts(rows[..i], fields)
    {
      var d := Project(rows[i], fields);
      var ordered := Reorder(d);
      out := out + [ordered];
      assert rows[..i + 1][..i] == rows[..i];
    }
    assert rows[..|rows|] == rows;
  }

  /** The placeholders `?,?,...` of the `IN` list. */
  function Placeholders(n: nat): string {
    Join(seq(n, _ => "?"), ",")
  }

  /** The status condition, with one placeholder per status. */
  function StatusIn(n: nat): string {
    "status IN (" + Placeholders(n) + ")"
  }

  const LocationEquals: string := "location = " + "?"

  /** The `WHERE` conditions `_query_bucket` builds; the location filter
      applies only for a non-empty location. */
  function BucketWhere(statuses: seq<string>, location: Option<string>): seq<string> {
    [StatusIn(|statuses|)] + (if location.Some? && location.value != "" then [LocationEquals] else [])
  }

  /** The pieces of the query text around the column list and the conditions. */
  const SelectText: string := "\n        SELECT "
  const FromWhereText: string := "\n        FROM orders\n        WHERE "
  const OrderByText: string := "\n        ORDER BY datetime(created_at) DESC"
  const LimitText: string := "\n        LIMIT "
  const EndText: string := "\n    "

  function BucketSql(selectSql: string, statuses: seq<string>, location: Option<string>): string {
    SelectText + selectSql + FromWhereText + Join(BucketWhere(statuses, location), " AND ")
      + OrderByText + LimitText + "?" + EndText
  }

  function BucketParams(statuses: seq<string>, limit: int, location: Option<string>): (params: seq<Value>) {
    seq(|statuses|, i requires 0 <= i < |statuses| => Text(statuses[i]))
      + (if location.Some? && location.value != "" then [Text(location.value)] else [])
      + [Integer(limit)]
  }

  lemma {:induction false} PlaceholderCount(n: nat)
    ensures CountChar(Placeholders(n), '?') == n
  {
    var parts := seq(n, _ => "?");
    CountCharJoin(parts, ",", '?');
    AllQuestionMarks(parts);
  }

  lemma {:induction false} AllQuestionMarks(parts: seq<string>)
    requires forall i :: 0 <= i < |parts| ==> parts[i] == "?"
    ensures CountAll(parts, '?') == |parts|
  {
    if |parts| > 0 {
      AllQuestionMarks(parts[1..]);
    }
  }

  lemma StatusInPlaceholders(n: nat)
    ensures CountChar(StatusIn(n), '?') == n
  {
    PlaceholderCount(n);
    assert '?' !in "status IN (" && '?' !in ")";
    CountCharConcat("status IN (", Placeholders(n), '?');
    CountCharConcat("status IN (" + Placeholders(n), ")", '?');
  }

  lemma LocationPlaceholder()
    ensures CountChar(LocationEquals, '?') == 1
  {
    assert '?' !in "location = ";
    CountCharConcat("location = ", "?", '?');
  }

  lemma CountAllPair(a: string, b: string, c: char)
    ensures CountAll([a], c) == CountChar(a, c)
    ensures CountAll([a, b], c) == CountChar(a, c) + CountChar(b, c)
  {
    assert [a][1..] == [];
    assert [a, b][1..] == [b];
    assert [b][1..] == [];
  }

  /** The conditions hold one placeholder per status, and one more when
      the location filters. */
  lemma WherePlaceholders(statuses: seq<string>, location: Option<string>)
    ensures CountChar(Join(BucketWhere(statuses, location), " AND "), '?')
      == |statuses| + (if location.Some? && location.value != "" then 1 else 0)
  {
    var where := BucketWhere(statuses, location);
    StatusInPlaceholders(|statuses|);
    LocationPlaceholder();
    CountAllPair(StatusIn(|statuses|), LocationEquals, '?');
    assert '?' !in " AND ";
    CountCharJoin(where, " AND ", '?');
  }

  /** The fixed text of the query holds no placeholder of its own. */
  lemma FixedTextWithoutPlaceholder()
    ensures '?' !in SelectText && '?' !in FromWhereText && '?' !in OrderByText
    ensures '?' !in LimitText && '?' !in EndText
  {
  }

  /** Counting `ch` over the pieces of a query whose fixed text holds
      only the one `ch` between `limit` and `end`. */
  lemma {:induction false} CountQuery(sel: string, cols: string, from: string, w: string,
                                      ord: string, limit: string, end: string, ch: char)
    requires ch !in sel && ch !in from && ch !in ord && ch !in limit && ch !in end
    ensures CountChar(sel + cols + from + w + ord + limit + [ch] + end, ch)
      == CountChar(cols, ch) + CountChar(w, ch) + 1
  {
    assert [ch][1..] == [];
    CountCharConcat(sel, cols, ch);
    CountCharConcat(sel + cols, from, ch);
    CountCharConcat(sel + cols + from, w, ch);
    CountCharConcat(sel + cols + from + w, ord, ch);
    CountCharConcat(sel + cols + from + w + ord, limit, ch);
    CountCharConcat(sel + cols + from + w + ord + limit, [ch], ch);
    CountCharConcat(sel + cols + from + w + ord + limit + [ch], end, ch);
  }

  /** Every parameter has its placeholder: one per status, one for the
      location when it filters, and one for the limit, provided the column
      list itself has none (which `BuildSelectSpec` shows of `_build_select`). */
  lemma PlaceholdersMatchParams(selectSql: string, statuses: seq<string>, limit: int, location: Option<string>)
    requires CountChar(selectSql, '?') == 0
    ensures CountChar(BucketSql(selectSql, statuses, location), '?') == |BucketParams(statuses, limit, location)|
  {
    var w := Join(BucketWhere(statuses, location), " AND ");
    WherePlaceholders(statuses, location);
    FixedTextWithoutPlaceholder();
    CountQuery(SelectText, selectSql, FromWhereText, w, OrderByText, LimitText, EndText, '?');
  }

  /** `_query_bucket`: the SQL and its parameters, run on `db`, and the
      rows turned into dictionaries. */
  method QueryBucket(db: (string, seq<Value>) -> seq<Row>, selectSql: string, keptFields: seq<string>,
                     statuses: seq<string>, limit: int, location: Option<string>)
    returns (orders: seq<Dict>)
    ensures orders == RowDicts(db(BucketSql(selectSql, statuses, location), BucketParams(statuses, limit, location)), keptFields)
  {
    var where := [StatusIn(|statuses|)];
    var params := seq(|statuses|, i requires 0 <= i < |statuses| => Text(statuses[i]));
    if location.Some? && location.value != "" {
      where := where + [LocationEquals];
      params := params + [Text(location.value)];
    }
    assert where == BucketWhere(statuses, location);
    var sql := SelectText + selectSql + FromWhereText + Join(where, " AND ") + OrderByText + LimitText + "?" + EndText;
    params := params + [Integer(limit)];
    assert sql == BucketSql(selectSql, statuses, location);
    assert params == BucketParams(statuses, limit, location);
    var rows := db(sql, params);
    orders := RowsToDicts(rows, keptFields);
  }

  datatype Bucket = Bucket(count: nat, orders: seq<Dict>)
  datatype OrderListing = OrderListing(open: Bucket, closed: Bucket)

  /** `fetch_orders`, given the column names of the `orders` table. */
  method FetchOrders(db: (string, seq<Value>) -> seq<Row>, existing: seq<string>,
                     limitOpen: int, limitClosed: int, location: Option<string>)
    returns (r: OrderListing)
    ensures existing == [] ==> r == OrderListing(Bucket(0, []), Bucket(0, []))
    ensures r.open.count == |r.open.orders| && r.closed.count == |r.closed.orders|
    ensures existing != [] ==>
      var (selectSql, fields) := BuildSelect(existing);
      && r.open.orders == RowDicts(db(BucketSql(selectSql, OpenStatusList, location),
                                      BucketParams(OpenStatusList, limitOpen, location)), fields)
      && r.closed.orders == RowDicts(db(BucketSql(selectSql, ClosedStatusList, location),
                                        BucketParams(ClosedStatusList, limitClosed, location)), fields)
  {
    if |existing| == 0 {
      return OrderListing(Bucket(0, []), Bucket(0, []));
    }
    var (selectSql, keptFields) := BuildSelect(existing);
    var openOrders := QueryBucket(db, selectSql, keptFields, OpenStatusList, limitOpen, location);
    var closedOrders := QueryBucket(db, selectSql, keptFields, ClosedStatusList, limitClosed, location);
    r := OrderListing(Bucket(|openOrders|, openOrders), Bucket(|closedOrders|, closedOrders));
  }
}
