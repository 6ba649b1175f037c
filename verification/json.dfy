/** Decoded JSON values as the Python code sees them after `json.load`:
    an object keeps its entries in insertion order, like a Python dict. */
module JsonValue {
  import opened Wrappers

  datatype Json =
    | Null
    | Bool(b: bool)
    | Num(n: real)
    | Str(s: string)
    | Arr(items: seq<Json>)
    | Obj(entries: seq<Entry>)

  datatype Entry = Entry(key: string, value: Json)

  /** Python truthiness (`if x:` / `not x`) of a decoded JSON value. */
  predicate Truthy(j: Json) {
    match j
    case Null => false
    case Bool(b) => b
    case Num(n) => n != 0.0
    case Str(s) => s != ""
    case Arr(items) => items != []
    case Obj(entries) => entries != []
  }

  /** `k in d`. */
  predicate HasKey(entries: seq<Entry>, k: string) {
    exists i :: 0 <= i < |entries| && entries[i].key == k
  }

  /** Position of the first entry with key `k`, or `|entries|` when there is none. */
  function FirstIndex(entries: seq<Entry>, k: string): (i: nat)
    ensures i <= |entries|
    ensures forall j :: 0 <= j < i ==> entries[j].key != k
    ensures i < |entries| ==> entries[i].key == k
    ensures i < |entries| <==> HasKey(entries, k)
  {
    if entries == [] then 0
    else if entries[0].key == k then 0
    else 1 + FirstIndex(entries[1..], k)
  }

  /** `d.get(k)`: the value under the first entry with key `k`. */
  function Get(entries: seq<Entry>, k: string): (r: Option<Json>)
    ensures r.Some? <==> HasKey(entries, k)
    ensures r.Some? ==> entries[FirstIndex(entries, k)] == Entry(k, r.value)
  {
    var i := FirstIndex(entries, k);
    if i == |entries| then None else Some(entries[i].value)
  }

  /** `d[k] = v`: an existing key keeps its place, a new key goes to the end. */
  function Put(entries: seq<Entry>, k: string, v: Json): (r: seq<Entry>)
    ensures Get(r, k) == Some(v)
    ensures HasKey(entries, k) ==> |r| == |entries|
    ensures !HasKey(entries, k) ==> r == entries + [Entry(k, v)]
    ensures forall i :: 0 <= i < |entries| ==> r[i].key == entries[i].key
    ensures forall i :: 0 <= i < |entries| && entries[i].key != k ==> r[i] == entries[i]
  {
    var i := FirstIndex(entries, k);
    var r := if i == |entries| then entries + [Entry(k, v)] else entries[i := Entry(k, v)];
    assert FirstIndex(r, k) == i by {
      assert forall j :: 0 <= j < i ==> r[j].key != k;
      FirstIndexUnique(r, k, i);
    }
    r
  }

  lemma {:induction false} FirstIndexUnique(entries: seq<Entry>, k: string, i: nat)
    requires i < |entries| && entries[i].key == k
    requires forall j :: 0 <= j < i ==> entries[j].key != k
    ensures FirstIndex(entries, k) == i
  {
    if i > 0 {
      FirstIndexUnique(entries[1..], k, i - 1);
    }
  }

  /** Keys other than `k` read the same after `d[k] = v`. */
  lemma PutOther(entries: seq<Entry>, k: string, v: Json, k': string)
    requires k' != k
    ensures Get(Put(entries, k, v), k') == Get(entries, k')
  {
    var r := Put(entries, k, v);
    var i := FirstIndex(entries, k');
    if i < |entries| {
      FirstIndexUnique(r, k', i);
    }
  }

  lemma PutOthers(entries: seq<Entry>, k: string, v: Json)
    ensures forall k' :: k' != k ==> Get(Put(entries, k, v), k') == Get(entries, k')
  {
    forall k' | k' != k ensures Get(Put(entries, k, v), k') == Get(entries, k') {
      PutOther(entries, k, v, k');
    }
  }

  /** Writing back the value just read changes nothing. */
  lemma PutGet(entries: seq<Entry>, k: string)
    requires HasKey(entries, k)
    ensures Put(entries, k, Get(entries, k).value) == entries
  {
  }

  /** `d.setdefault(k, dflt)`: the entries afterwards and the value returned. */
  function SetDefault(entries: seq<Entry>, k: string, dflt: Json): (r: (seq<Entry>, Json))
    ensures Get(r.0, k) == Some(r.1)
    ensures HasKey(entries, k) ==> r == (entries, Get(entries, k).value)
    ensures !HasKey(entries, k) ==> r == (entries + [Entry(k, dflt)], dflt)
  {
    match Get(entries, k)
    case Some(v) => (entries, v)
    case None => (Put(entries, k, dflt), dflt)
  }

  /** No key occurs twice, as in a Python dict. */
  predicate UniqueKeys(entries: seq<Entry>)
  {
    forall i, j :: 0 <= i < j < |entries| ==> entries[i].key != entries[j].key
  }

  /** In a dict, `d[k]` is the value of the one entry with key `k`. */
  lemma UniqueGet(entries: seq<Entry>, i: nat)
    requires UniqueKeys(entries) && i < |entries|
    ensures Get(entries, entries[i].key) == Some(entries[i].value)
  {
    FirstIndexUnique(entries, entries[i].key, i);
  }

  /** `d[k] = v` keeps the keys unique. */
  lemma PutKeepsUnique(entries: seq<Entry>, k: string, v: Json)
    requires UniqueKeys(entries)
    ensures UniqueKeys(Put(entries, k, v))
  {
    var r := Put(entries, k, v);
    if !HasKey(entries, k) {
      forall i, j | 0 <= i < j < |r| ensures r[i].key != r[j].key {
        if j == |entries| {
          assert r[i].key == entries[i].key;
        }
      }
    }
  }

  /** `d.setdefault(k, dflt)` keeps the keys unique. */
  lemma SetDefaultKeepsUnique(entries: seq<Entry>, k: string, dflt: Json)
    requires UniqueKeys(entries)
    ensures UniqueKeys(SetDefault(entries, k, dflt).0)
  {
    if !HasKey(entries, k) {
      PutKeepsUnique(entries, k, dflt);
    }
  }
}
