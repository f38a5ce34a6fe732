/** The dict and sequence helpers of batbelt/structs.py: `chunks`, `dmerge`,
    `dswap`, `get` and `subdict`. */
module Structs {
  import opened Outcomes
  import opened Sequences

  // ---------------------------------------------------------------- chunks

  /** The pieces `chunks(s, size)` yields, each one materialised: the first
      item, then up to `size - 1` more, until the input runs out. */
  function Chunks<T>(s: seq<T>, size: nat): (r: seq<seq<T>>)
    requires size >= 1
    ensures forall i :: 0 <= i < |r| ==> 1 <= |r[i]| <= size
    decreases |s|
  {
    if s == [] then []
    else
      var n := if |s| < size then |s| else size;
      [s[..n]] + Chunks(s[n..], size)
  }

  function Concat<T>(pieces: seq<seq<T>>): seq<T> {
    if pieces == [] then [] else pieces[0] + Concat(pieces[1..])
  }

  /** Joining the pieces gives the input back. */
  lemma {:induction false} ChunksConcat<T>(s: seq<T>, size: nat)
    requires size >= 1
    ensures Concat(Chunks(s, size)) == s
    decreases |s|
  {
    if s != [] {
      var n := if |s| < size then |s| else size;
      ChunksConcat(s[n..], size);
      assert s == s[..n] + s[n..];
    }
  }

  /** An empty input yields no piece; otherwise every piece but the last has
      exactly `size` items, and the last one has between 1 and `size`. */
  lemma {:induction false} ChunksShape<T>(s: seq<T>, size: nat)
    requires size >= 1
    ensures s == [] <==> Chunks(s, size) == []
    ensures forall i :: 0 <= i < |Chunks(s, size)| - 1 ==> |Chunks(s, size)[i]| == size
    ensures Chunks(s, size) != [] ==> 1 <= |Chunks(s, size)[|Chunks(s, size)| - 1]| <= size
    decreases |s|
  {
    if s != [] {
      var n := if |s| < size then |s| else size;
      var rest := Chunks(s[n..], size);
      ChunksShape(s[n..], size);
      assert Chunks(s, size) == [s[..n]] + rest;
      if rest != [] {
        assert n == size;
      }
    }
  }

  // ---------------------------------------------------------------- dmerge

  /** `d.update(other)`: every entry of `other` is written into `d`. */
  function Update<K, V>(d: map<K, V>, other: map<K, V>): (r: map<K, V>)
    ensures r.Keys == d.Keys + other.Keys
    ensures forall k :: k in other ==> r[k] == other[k]
    ensures forall k :: k in d && k !in other ==> r[k] == d[k]
  {
    d + other
  }

  /** `dmerge(d1, d2)`: a new dict updated with `d1`, then with `d2`. */
  function DMerge<K, V>(d1: map<K, V>, d2: map<K, V>): (d: map<K, V>)
    ensures d.Keys == d1.Keys + d2.Keys
    ensures forall k :: k in d2 ==> d[k] == d2[k]
    ensures forall k :: k in d1 && k !in d2 ==> d[k] == d1[k]
  {
    Update(Update(map[], d1), d2)
  }

  // ----------------------------------------------------------------- dswap

  /** `dswap(dct)`: one entry `value: key` per key of `dct`, written in
      the dict's iteration order `order`, so that of several keys sharing a
      value the last one in that order wins. */
  function DSwap<K, V>(dct: map<K, V>, order: seq<K>): (r: map<V, K>)
    requires forall k :: k in order ==> k in dct
    ensures r.Keys == set k | k in order :: dct[k]
    ensures forall v :: v in r ==> r[v] in order && dct[r[v]] == v
    ensures forall i :: 0 <= i < |order| && (forall j :: i < j < |order| ==> dct[order[j]] != dct[order[i]]) ==>
              r[dct[order[i]]] == order[i]
    decreases |order|
  {
    if order == [] then map[]
    else
      var front, k := order[..|order| - 1], order[|order| - 1];
      assert forall i :: 0 <= i < |front| ==> front[i] == order[i];
      assert order == front + [k];
      DSwap(dct, front)[dct[k] := k]
  }

  /** Over the whole dict, the swapped dict has exactly its values as keys;
      and when no two keys share a value, it is the exact inverse of `dct`,
      whatever the iteration order. */
  lemma DSwapInverse<K, V>(dct: map<K, V>, order: seq<K>)
    requires Members(order) == dct.Keys
    ensures DSwap(dct, order).Keys == dct.Values
    ensures (forall k, k' :: k in dct && k' in dct && k != k' ==> dct[k] != dct[k']) ==>
              forall k :: k in dct ==> dct[k] in DSwap(dct, order) && DSwap(dct, order)[dct[k]] == k
  {
    var r := DSwap(dct, order);
    forall v | v in dct.Values ensures v in r {
      var k :| k in dct && dct[k] == v;
      assert k in order;
    }
    forall k | k in dct ensures dct[k] in r {
      assert k in order;
    }
  }

  // ------------------------------------------------------------------- get

  /** A key or an index that `get` applies: a string or an integer. */
  datatype Key = Str(s: string) | Int(i: int)

  /** Nested data: scalars, strings, lists and dicts. */
  datatype Data =
    | Null
    | Num(n: int)
    | Text(chars: string)
    | List(items: seq<Data>)
    | Dict(entries: map<Key, Data>)

  /** Python's position for index `i` into a sequence of length `len`, when
      `-len <= i < len`: negative indices count from the end. */
  function Position(i: int, len: nat): (p: nat)
    requires 0 <= len + i && i < len
    ensures p < len
    ensures i >= 0 ==> p == i
    ensures i < 0 ==> p == len + i
  {
    if i < 0 then len + i else i
  }

  /** `value[key]`: a dict is looked up by key, a list or a string by an
      integer index; anything else cannot be subscripted. */
  function Index(value: Data, key: Key): (r: Result<Data>)
    ensures r == Err(TypeError) <==> !(value.Dict? || ((value.List? || value.Text?) && key.Int?))
    ensures r == Err(KeyError) <==> value.Dict? && key !in value.entries
    ensures r == Err(IndexError) <==> (value.List? || value.Text?) && key.Int? && !(-(Size(value) as int) <= key.i < Size(value))
    ensures value.Text? && r.Ok? ==> r.value.Text? && |r.value.chars| == 1
  {
    match value
    case Dict(m) => if key in m then Ok(m[key]) else Err(KeyError)
    case List(xs) =>
      if !key.Int? then Err(TypeError)
      else if -|xs| <= key.i < |xs| then Ok(xs[Position(key.i, |xs|)])
      else Err(IndexError)
    case Text(cs) =>
      if !key.Int? then Err(TypeError)
      else if -|cs| <= key.i < |cs| then Ok(Text([cs[Position(key.i, |cs|)]]))
      else Err(IndexError)
    case _ => Err(TypeError)
  }

  /** The length of a list or a string. */
  function Size(value: Data): nat {
    match value
    case List(xs) => |xs|
    case Text(cs) => |cs|
    case _ => 0
  }

  /** `value[k1][k2]...[kn]`, stopping at the first step that raises.  No
      keys is the value itself, and one key is one subscription. */
  function Lookup(value: Data, keys: seq<Key>): (r: Result<Data>)
    ensures keys == [] ==> r == Ok(value)
    ensures |keys| == 1 ==> r == Index(value, keys[0])
    decreases |keys|
  {
    if keys == [] then Ok(value)
    else
      match Index(value, keys[0])
      case Ok(next) => Lookup(next, keys[1..])
      case Err(e) => Err(e)
  }

  /** Negative indices count from the end: index `i - len` is index `i`. */
  lemma IndexFromEnd(value: Data, i: int)
    requires value.List? || value.Text?
    requires var len := if value.List? then |value.items| else |value.chars|;
             0 <= i < len
    ensures Index(value, Int(i - (if value.List? then |value.items| else |value.chars|))) == Index(value, Int(i))
  {
  }

  /** Looking up one more key takes one more step from where the shorter
      lookup ended, and an error raised earlier stays the result. */
  lemma {:induction false} LookupSnoc(value: Data, keys: seq<Key>, key: Key)
    ensures Lookup(value, keys + [key]) ==
            match Lookup(value, keys)
            case Ok(v) => Index(v, key)
            case Err(e) => Err(e)
    decreases |keys|
  {
    if keys == [] {
      assert [key][1..] == [];
    } else {
      assert (keys + [key])[0] == keys[0];
      assert (keys + [key])[1..] == keys[1..] + [key];
      match Index(value, keys[0])
      case Ok(next) => LookupSnoc(next, keys[1..], key);
      case Err(e) =>
    }
  }

  /** `get(data, *keys, default=default)`: the nested value, or `default`
      when there are no keys or some step raises KeyError, IndexError or
      TypeError. */
  method Get(data: Data, keys: seq<Key>, default: Data) returns (r: Data)
    ensures keys == [] ==> r == default
    ensures keys != [] ==> r == match Lookup(data, keys) case Ok(v) => v case Err(_) => default
  {
    if keys == [] {
      return default;          // keys[0] raises IndexError
    }
    var step := Index(data, keys[0]);
    if step.Err? {
      return default;
    }
    var value := step.value;
    var i := 1;
    while i < |keys|
      invariant 1 <= i <= |keys|
      invariant Lookup(data, keys) == Lookup(value, keys[i..])
    {
      step := Index(value, keys[i]);
      if step.Err? {
        return default;
      }
      value := step.value;
      i := i + 1;
    }
    r := value;
  }

  // --------------------------------------------------------------- subdict

  /** `subdict(dct, include, exclude)`: with a non-empty `includeKeys`, the
      entries whose key is in it; otherwise those whose key is not in
      `excludeKeys`.  Values are copied unchanged. */
  function SubDict<K, V>(dct: map<K, V>, includeKeys: seq<K>, excludeKeys: seq<K>): (r: map<K, V>)
    ensures includeKeys != [] ==> r.Keys == dct.Keys * Members(includeKeys)
    ensures includeKeys == [] ==> r.Keys == dct.Keys - Members(excludeKeys)
    ensures forall k :: k in r ==> r[k] == dct[k]
  {
    if includeKeys != [] then map k | k in dct && k in includeKeys :: dct[k]
    else map k | k in dct && k !in excludeKeys :: dct[k]
  }

  /** Including some keys and excluding the same keys split a dict in two. */
  lemma SubDictSplit<K, V>(dct: map<K, V>, keys: seq<K>)
    requires keys != []
    ensures SubDict(dct, keys, []).Keys !! SubDict(dct, [], keys).Keys
    ensures Update(SubDict(dct, keys, []), SubDict(dct, [], keys)) == dct
  {
  }
}
