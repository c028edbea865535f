/**
 * The part of the YAML PSI the plugin touches: a mapping is an ordered list of key/value
 * entries, a value is empty, a scalar or a nested mapping.  The code only asks whether a value
 * is a YAMLMapping, so Scalar stands for every other present value: scalars, sequences,
 * aliases and tagged nodes.  Lookup is by first entry with a
 * key (YAMLMapping.getKeyValueByKey); a mapping deep in the tree is named by the keys that
 * lead to it from the root, and an in-place edit of that mapping is a replacement along
 * that key path.
 */
module YamlTree {
  import opened Wrappers

  datatype YamlValue = Empty | Scalar(text: string) | Mapping(entries: seq<KeyValue>)

  datatype KeyValue = KeyValue(key: string, value: YamlValue)

  /** The index of the first entry whose key is k. */
  function KeyIndex(m: seq<KeyValue>, k: string): (r: Option<nat>)
    ensures r.Some? ==> r.value < |m| && m[r.value].key == k
    ensures r.Some? ==> forall j :: 0 <= j < r.value ==> m[j].key != k
    ensures r.None? ==> forall j :: 0 <= j < |m| ==> m[j].key != k
  {
    if |m| == 0 then None
    else if m[0].key == k then Some(0)
    else match KeyIndex(m[1..], k)
      case None => None
      case Some(j) => Some(j + 1)
  }

  /** YAMLMapping.getKeyValueByKey. */
  function GetKeyValueByKey(m: seq<KeyValue>, k: string): (r: Option<KeyValue>)
    ensures r.Some? <==> exists j :: 0 <= j < |m| && m[j].key == k
    ensures r.Some? ==> r.value.key == k && r.value in m
  {
    match KeyIndex(m, k)
    case None => None
    case Some(j) => Some(m[j])
  }

  /** The entries of the mapping held by the first entry for k, when it holds a mapping. */
  function Child(m: seq<KeyValue>, k: string): (r: Option<seq<KeyValue>>)
    ensures r.Some? <==> KeyIndex(m, k).Some? && m[KeyIndex(m, k).value].value.Mapping?
  {
    match KeyIndex(m, k)
    case None => None
    case Some(j) => if m[j].value.Mapping? then Some(m[j].value.entries) else None
  }

  /** The mapping reached from m by descending through the keys of path, one level per key. */
  function MappingAt(m: seq<KeyValue>, path: seq<string>): Option<seq<KeyValue>>
    decreases |path|
  {
    if path == [] then Some(m)
    else match Child(m, path[0])
      case None => None
      case Some(c) => MappingAt(c, path[1..])
  }

  /** m with the value of the first entry for k set to the mapping n. */
  function SetChild(m: seq<KeyValue>, k: string, n: seq<KeyValue>): (r: seq<KeyValue>)
    requires KeyIndex(m, k).Some?
    ensures |r| == |m|
    ensures forall i :: 0 <= i < |m| ==> r[i].key == m[i].key
    ensures forall i :: 0 <= i < |m| && i != KeyIndex(m, k).value ==> r[i] == m[i]
    ensures Child(r, k) == Some(n)
  {
    var j := KeyIndex(m, k).value;
    var r := m[j := KeyValue(k, Mapping(n))];
    KeysOnly(m, r, k);
    r
  }

  /** m with the mapping found at path replaced by n; everything off the path is untouched. */
  function ReplaceAt(m: seq<KeyValue>, path: seq<string>, n: seq<KeyValue>): (r: seq<KeyValue>)
    requires MappingAt(m, path).Some?
    ensures |r| == |m| || path == []
    decreases |path|
  {
    if path == [] then n
    else SetChild(m, path[0], ReplaceAt(Child(m, path[0]).value, path[1..], n))
  }

  /** Where PsiElement.addBefore(kv, mapping.getLastChild()) puts the new entry. */
  function InsertPosition(n: nat, beforeLast: bool): (p: nat)
    ensures p <= n && (p == n || p == n - 1)
  {
    if beforeLast && n > 0 then n - 1 else n
  }

  /**
   * The mapping after addBefore(kv, getLastChild()): kv lands last or, when the last child
   * is itself an entry, second to last; every old entry keeps its relative order.
   */
  function AddBefore(m: seq<KeyValue>, kv: KeyValue, beforeLast: bool): (r: seq<KeyValue>)
    ensures |r| == |m| + 1
    ensures r[InsertPosition(|m|, beforeLast)] == kv
    ensures forall j :: 0 <= j < InsertPosition(|m|, beforeLast) ==> r[j] == m[j]
    ensures forall j :: InsertPosition(|m|, beforeLast) < j < |r| ==> r[j] == m[j - 1]
  {
    var p := InsertPosition(|m|, beforeLast);
    m[..p] + [kv] + m[p..]
  }

  /** Lookup only looks at keys: two mappings with the same keys in the same order agree on it. */
  lemma KeysOnly(m: seq<KeyValue>, m': seq<KeyValue>, k: string)
    requires |m| == |m'| && forall i :: 0 <= i < |m| ==> m[i].key == m'[i].key
    ensures KeyIndex(m, k) == KeyIndex(m', k)
  {
  }

  /** The first entry with key k is at index i. */
  lemma KeyIndexAt(m: seq<KeyValue>, k: string, i: nat)
    requires i < |m| && m[i].key == k
    requires forall j :: 0 <= j < i ==> m[j].key != k
    ensures KeyIndex(m, k) == Some(i)
  {
    var r := KeyIndex(m, k);
    assert r.Some?;
    assert r.value <= i;
    assert r.value >= i;
  }

  /** The new entry of AddBefore is the first one with its key, when that key was absent. */
  lemma AddBeforeNewKey(m: seq<KeyValue>, kv: KeyValue, beforeLast: bool)
    requires KeyIndex(m, kv.key).None?
    ensures KeyIndex(AddBefore(m, kv, beforeLast), kv.key) == Some(InsertPosition(|m|, beforeLast))
  {
    var p := InsertPosition(|m|, beforeLast);
    var r := AddBefore(m, kv, beforeLast);
    forall j | 0 <= j < p
      ensures r[j].key != kv.key
    {
      assert r[j] == m[j];
    }
    KeyIndexAt(r, kv.key, p);
  }

  /** AddBefore changes no lookup of another key. */
  lemma AddBeforeOtherKey(m: seq<KeyValue>, kv: KeyValue, beforeLast: bool, k: string)
    requires k != kv.key
    ensures GetKeyValueByKey(AddBefore(m, kv, beforeLast), k) == GetKeyValueByKey(m, k)
    ensures Child(AddBefore(m, kv, beforeLast), k) == Child(m, k)
  {
    var p := InsertPosition(|m|, beforeLast);
    var r := AddBefore(m, kv, beforeLast);
    var a := KeyIndex(m, k);
    if a.Some? {
      var i := a.value;
      var e := if i < p then i else i + 1;
      assert r[e] == m[i];
      forall j | 0 <= j < e
        ensures r[j].key != k
      {
        if j < p {
          assert r[j] == m[j];
        }
      }
      KeyIndexAt(r, k, e);
    } else {
      forall j | 0 <= j < |r|
        ensures r[j].key != k
      {
        if j < p {
          assert r[j] == m[j];
        } else if j > p {
          assert r[j] == m[j - 1];
        }
      }
      assert KeyIndex(r, k).None?;
    }
  }

  /** The key path p followed by one more key k. */
  lemma {:induction false} MappingAtSnoc(m: seq<KeyValue>, p: seq<string>, k: string)
    ensures MappingAt(m, p + [k]) == match MappingAt(m, p)
      case None => None
      case Some(x) => Child(x, k)
    decreases |p|
  {
    if p == [] {
      assert p + [k] == [k];
    } else {
      assert (p + [k])[1..] == p[1..] + [k];
      match Child(m, p[0])
      case None =>
      case Some(c) => MappingAtSnoc(c, p[1..], k);
    }
  }

  /** After a replacement along path, the mapping found at path is the new one. */
  lemma {:induction false} ReplaceAtGet(m: seq<KeyValue>, path: seq<string>, n: seq<KeyValue>)
    requires MappingAt(m, path).Some?
    ensures MappingAt(ReplaceAt(m, path, n), path) == Some(n)
    decreases |path|
  {
    if path != [] {
      ReplaceAtGet(Child(m, path[0]).value, path[1..], n);
    }
  }

  /** Replacing the mapping at path by itself changes nothing. */
  lemma {:induction false} ReplaceAtSame(m: seq<KeyValue>, path: seq<string>)
    requires MappingAt(m, path).Some?
    ensures ReplaceAt(m, path, MappingAt(m, path).value) == m
    decreases |path|
  {
    if path != [] {
      var c := Child(m, path[0]).value;
      ReplaceAtSame(c, path[1..]);
      var j := KeyIndex(m, path[0]).value;
      assert m[j] == KeyValue(path[0], Mapping(c));
      assert SetChild(m, path[0], c) == m;
    }
  }

  /** A replacement one level below path is a SetChild of the mapping at path. */
  lemma {:induction false} ReplaceAtSnoc(m: seq<KeyValue>, p: seq<string>, k: string, x: seq<KeyValue>)
    requires MappingAt(m, p + [k]).Some?
    ensures MappingAt(m, p).Some? && KeyIndex(MappingAt(m, p).value, k).Some?
    ensures ReplaceAt(m, p + [k], x) == ReplaceAt(m, p, SetChild(MappingAt(m, p).value, k, x))
    decreases |p|
  {
    MappingAtSnoc(m, p, k);
    if p == [] {
      assert p + [k] == [k];
      assert [k][1..] == [];
    } else {
      assert (p + [k])[1..] == p[1..] + [k];
      ReplaceAtSnoc(Child(m, p[0]).value, p[1..], k, x);
    }
  }

  /** The cursor one level below an edited mapping, entering the child the edit left at k. */
  lemma CursorAfterEdit(m: seq<KeyValue>, path: seq<string>, n: seq<KeyValue>, k: string)
    requires MappingAt(m, path).Some?
    ensures MappingAt(ReplaceAt(m, path, n), path + [k]) == Child(n, k)
  {
    ReplaceAtGet(m, path, n);
    MappingAtSnoc(ReplaceAt(m, path, n), path, k);
  }
}
