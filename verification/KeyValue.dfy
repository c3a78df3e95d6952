/** Lists of `Key=value` parameters in which the order of keys does not matter and
    the last value of a key wins, as the `scontrol update` commands read them. */
module KeyValue {
  import opened Text

  datatype Pair = Pair(key: string, value: string)

  /** `s.split_once('=')`. */
  function SplitOnce(s: string): (r: Option<Pair>)
    ensures r.None? <==> '=' !in s
  {
    if s == [] then None
    else if s[0] == '=' then Some(Pair("", s[1..]))
    else
      match SplitOnce(s[1..])
      case None => None
      case Some(p) => Some(Pair([s[0]] + p.key, p.value))
  }

  lemma {:induction false} SplitOnceAt(key: string, value: string)
    requires '=' !in key
    ensures SplitOnce(key + ['='] + value) == Some(Pair(key, value))
  {
    var s := key + ['='] + value;
    if key == [] {
      assert s[1..] == value;
    } else {
      var rest := key[1..];
      SplitOnceAt(rest, value);
      assert s[1..] == rest + ['='] + value && s[0] == key[0];
      assert [key[0]] + rest == key;
    }
  }

  /** One accepted parameter. */
  datatype Entry<+Key> = Entry(key: Key, value: string)

  /** How a command reads a parameter: None when it is malformed, its key unknown or its value invalid. */
  type Reader<!Key> = string -> Option<Entry<Key>>

  predicate AllRead<Key>(params: seq<string>, read: Reader<Key>) {
    forall i :: 0 <= i < |params| ==> read(params[i]).Some?
  }

  /** The last value given to each key. */
  function LastValues<Key(==)>(params: seq<string>, read: Reader<Key>): map<Key, string>
    requires AllRead(params, read)
  {
    if params == [] then map[]
    else
      var last := read(params[|params| - 1]).value;
      LastValues(params[..|params| - 1], read)[last.key := last.value]
  }

  /** A text field of a request: the last value of its key. */
  predicate SaysText<Key(==)>(text: Option<string>, m: map<Key, string>, key: Key) {
    text == if key in m then Some(m[key]) else None
  }

  /** A number field of a request: the last value of its key, which is a number. */
  predicate SaysNumber<Key(==)>(number: Option<nat>, m: map<Key, string>, key: Key, lib: Library) {
    if key in m then number.Some? && number == lib.u32(m[key]) else number == None
  }

  lemma {:induction false} LastValuesComeFromParams<Key>(params: seq<string>, read: Reader<Key>, key: Key)
    requires AllRead(params, read)
    ensures key in LastValues(params, read)
       <==> exists i :: 0 <= i < |params| && read(params[i]).value.key == key
    ensures key in LastValues(params, read) ==>
              exists i :: 0 <= i < |params| && read(params[i]) == Some(Entry(key, LastValues(params, read)[key]))
  {
    if params != [] {
      var n := |params| - 1;
      var before := params[..n];
      LastValuesComeFromParams(before, read, key);
      assert forall i :: 0 <= i < n ==> before[i] == params[i];
      if read(params[n]).value.key != key && key in LastValues(before, read) {
        var i :| 0 <= i < n && read(before[i]) == Some(Entry(key, LastValues(before, read)[key]));
        assert params[i] == before[i];
      }
    }
  }

  /** No later parameter has the key of parameter `k`: its value is the one kept. */
  lemma {:induction false} LastValueKept<Key>(params: seq<string>, read: Reader<Key>, k: nat)
    requires AllRead(params, read) && k < |params|
    requires forall j :: k < j < |params| ==> read(params[j]).value.key != read(params[k]).value.key
    ensures var e := read(params[k]).value;
            e.key in LastValues(params, read) && LastValues(params, read)[e.key] == e.value
  {
    var n := |params| - 1;
    if k < n {
      LastValueKept(params[..n], read, k);
    }
  }

  lemma ThreeKept<Key>(params: seq<string>, read: Reader<Key>, a: Entry<Key>, b: Entry<Key>, c: Entry<Key>)
    requires |params| == 3 && a.key != b.key && a.key != c.key && b.key != c.key
    requires read(params[0]) == Some(a) && read(params[1]) == Some(b) && read(params[2]) == Some(c)
    ensures AllRead(params, read)
    ensures LastValues(params, read) == map[a.key := a.value, b.key := b.value, c.key := c.value]
  {
    var two, one := params[..2], params[..1];
    assert two[..1] == one && one[..0] == [] && two[1] == params[1] && one[0] == params[0];
    assert LastValues(one, read) == LastValues(one[..0], read)[a.key := a.value];
    assert LastValues(two, read) == LastValues(one, read)[b.key := b.value];
  }

  predicate DistinctKeys<Key(==)>(params: seq<string>, read: Reader<Key>)
    requires AllRead(params, read)
  {
    forall i, j :: 0 <= i < j < |params| ==> read(params[i]).value.key != read(params[j]).value.key
  }

  predicate SameParams(a: seq<string>, b: seq<string>) {
    (forall p :: p in a ==> p in b) && (forall p :: p in b ==> p in a)
  }

  lemma AllReadOfSameParams<Key>(a: seq<string>, b: seq<string>, read: Reader<Key>)
    requires SameParams(a, b)
    ensures AllRead(a, read) <==> AllRead(b, read)
  {
    if AllRead(a, read) {
      forall i | 0 <= i < |b| ensures read(b[i]).Some? { assert b[i] in a; }
    }
    if AllRead(b, read) {
      forall i | 0 <= i < |a| ensures read(a[i]).Some? { assert a[i] in b; }
    }
  }

  /** With no key repeated, only which parameters are given matters, not their order. */
  lemma OrderIsIrrelevant<Key(!new)>(a: seq<string>, b: seq<string>, read: Reader<Key>)
    requires AllRead(a, read) && AllRead(b, read) && SameParams(a, b) && DistinctKeys(a, read)
    ensures LastValues(a, read) == LastValues(b, read)
  {
    var va, vb := LastValues(a, read), LastValues(b, read);
    forall key ensures key in va <==> key in vb ensures key in va && key in vb ==> va[key] == vb[key] {
      LastValuesComeFromParams(a, read, key);
      LastValuesComeFromParams(b, read, key);
      if key in va {
        var i :| 0 <= i < |a| && read(a[i]).value.key == key;
        assert a[i] in b;
        var j :| 0 <= j < |b| && b[j] == a[i];
        assert read(b[j]).value.key == key;
      }
      if key in vb {
        var j :| 0 <= j < |b| && read(b[j]) == Some(Entry(key, vb[key]));
        assert b[j] in a;
        var i :| 0 <= i < |a| && a[i] == b[j];
        LastValueKept(a, read, i);
      }
    }
  }

  /** A parameter followed by another with its key might as well not be there. */
  lemma {:induction false} OverriddenIsIrrelevant<Key>(a: seq<string>, p: string, b: seq<string>, read: Reader<Key>)
    requires AllRead(a, read) && read(p).Some? && AllRead(b, read)
    requires exists i :: 0 <= i < |b| && read(b[i]).value.key == read(p).value.key
    ensures AllRead(a + [p] + b, read) && AllRead(a + b, read)
    ensures LastValues(a + [p] + b, read) == LastValues(a + b, read)
    decreases |b|
  {
    var n := |b| - 1;
    var before, last := b[..n], read(b[n]).value;
    var longer, shorter := a + [p] + b, a + b;
    assert longer[..|longer| - 1] == a + [p] + before && longer[|longer| - 1] == b[n];
    assert shorter[..|shorter| - 1] == a + before && shorter[|shorter| - 1] == b[n];
    if last.key == read(p).value.key {
      OverwrittenAnyway(a, p, before, read, last);
    } else {
      var i :| 0 <= i < |b| && read(b[i]).value.key == read(p).value.key;
      assert before[i] == b[i];
      OverriddenIsIrrelevant(a, p, before, read);
    }
  }

  /** Maps that agree but for one key agree but for it after any update. */
  lemma UpdatesAgree<Key>(m: map<Key, string>, n: map<Key, string>, last: Entry<Key>, e: Entry<Key>)
    requires m[e.key := e.value] == n[e.key := e.value]
    ensures m[last.key := last.value][e.key := e.value] == n[last.key := last.value][e.key := e.value]
  {
    assert m[last.key := last.value][e.key := e.value]
        == if last.key == e.key then m[e.key := e.value] else m[e.key := e.value][last.key := last.value];
    assert n[last.key := last.value][e.key := e.value]
        == if last.key == e.key then n[e.key := e.value] else n[e.key := e.value][last.key := last.value];
  }

  lemma {:induction false} OverwrittenAnyway<Key>(a: seq<string>, p: string, b: seq<string>,
                                                      read: Reader<Key>, e: Entry<Key>)
    requires AllRead(a, read) && read(p).Some? && AllRead(b, read) && e.key == read(p).value.key
    ensures AllRead(a + [p] + b, read) && AllRead(a + b, read)
    ensures LastValues(a + [p] + b, read)[e.key := e.value] == LastValues(a + b, read)[e.key := e.value]
    decreases |b|
  {
    var longer, shorter := a + [p] + b, a + b;
    if b == [] {
      assert longer[..|a|] == a && longer[|a|] == p && shorter == a;
    } else {
      var n := |b| - 1;
      assert longer[..|longer| - 1] == a + [p] + b[..n] && longer[|longer| - 1] == b[n];
      assert shorter[..|shorter| - 1] == a + b[..n] && shorter[|shorter| - 1] == b[n];
      OverwrittenAnyway(a, p, b[..n], read, e);
      var last := read(b[n]).value;
      UpdatesAgree(LastValues(a + [p] + b[..n], read), LastValues(a + b[..n], read), last, e);
    }
  }

  lemma AllReadConcat<Key>(a: seq<string>, b: seq<string>, read: Reader<Key>)
    ensures AllRead(a + b, read) <==> AllRead(a, read) && AllRead(b, read)
  {
    assert forall i :: 0 <= i < |a| ==> (a + b)[i] == a[i];
    assert forall i :: 0 <= i < |b| ==> (a + b)[|a| + i] == b[i];
  }

  /** A readable parameter whose key is given again later changes nothing. */
  lemma LastWinsOverall<Key>(a: seq<string>, p: string, b: seq<string>, read: Reader<Key>)
    requires read(p).Some?
    requires exists i :: 0 <= i < |b| && read(b[i]).Some? && read(b[i]).value.key == read(p).value.key
    ensures AllRead(a + [p] + b, read) <==> AllRead(a + b, read)
    ensures AllRead(a + b, read) ==> LastValues(a + [p] + b, read) == LastValues(a + b, read)
  {
    AllReadConcat(a, b, read);
    AllReadConcat(a, [p], read);
    AllReadConcat(a + [p], b, read);
    if AllRead(a, read) && AllRead(b, read) {
      OverriddenIsIrrelevant(a, p, b, read);
    }
  }
}
