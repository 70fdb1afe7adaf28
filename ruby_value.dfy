/**
 * Ruby values as the datamodel code sees them once JSON has been parsed:
 * nil, booleans, integers, strings, arrays and hashes. A Ruby Hash keeps
 * insertion order, so it is an association list of (key, value) pairs with
 * distinct keys; symbol and string keys are not told apart.
 */
module RubyValue {
  import opened RubyText

  datatype Value =
    | Nil
    | Bool(b: bool)
    | Int(i: int)
    | Str(s: string)
    | Arr(items: seq<Value>)
    | Hash(entries: seq<(string, Value)>)

  type Entries = seq<(string, Value)>

  /** Rails `blank?`: nil, false, whitespace-only strings, empty arrays and
      empty hashes. */
  predicate Blank(v: Value)
  {
    match v
    case Nil => true
    case Bool(b) => !b
    case Int(_) => false
    case Str(s) => AllSpace(s)
    case Arr(xs) => xs == []
    case Hash(es) => es == []
  }

  /** Rails `present?`. */
  predicate Present(v: Value) { !Blank(v) }

  /** Ruby truthiness, as `||` uses it: everything but nil and false. */
  predicate Truthy(v: Value) { !(v.Nil? || v == Bool(false)) }

  lemma BlankExamples()
    ensures Blank(Nil) && Blank(Bool(false)) && Blank(Str("")) && Blank(Str(" \t"))
    ensures Blank(Arr([])) && Blank(Hash([]))
    ensures Present(Bool(true)) && Present(Int(0)) && Present(Str("x")) && Present(Arr([Nil]))
    ensures Blank(Str("\U{00A0}\U{3000}")) && Present(Str("\U{200B}"))
  {
    assert IsBlankChar(" \t"[0]) && IsBlankChar(" \t"[1]);
    assert !IsBlankChar("x"[0]);
    assert IsBlankChar("\U{00A0}\U{3000}"[0]) && IsBlankChar("\U{00A0}\U{3000}"[1]);
    assert !IsBlankChar("\U{200B}"[0]);
  }

  /** `v.inspect`, without escaping inside strings. */
  function Inspect(v: Value): string
  {
    match v
    case Nil => "nil"
    case Bool(b) => if b then "true" else "false"
    case Int(i) => IntToString(i)
    case Str(s) => "\"" + s + "\""
    case Arr(xs) => "[" + JoinWith(seq(|xs|, i requires 0 <= i < |xs| => Inspect(xs[i])), ", ") + "]"
    case Hash(es) =>
      "{" + JoinWith(seq(|es|, i requires 0 <= i < |es| => "\"" + es[i].0 + "\" => " + Inspect(es[i].1)), ", ") + "}"
  }

  /** `v.to_s`, which is also what `"#{v}"` interpolates. */
  function ToS(v: Value): (r: string)
    ensures v.Str? ==> r == v.s
    ensures v.Nil? ==> r == ""
  {
    match v
    case Nil => ""
    case Str(s) => s
    case _ => Inspect(v)
  }

  function Keys(es: Entries): (ks: seq<string>)
    ensures |ks| == |es|
    ensures forall i :: 0 <= i < |es| ==> ks[i] == es[i].0
  {
    if es == [] then [] else [es[0].0] + Keys(es[1..])
  }

  predicate HasKey(es: Entries, k: string)
  {
    es != [] && (es[0].0 == k || HasKey(es[1..], k))
  }

  lemma {:induction false} HasKeyIffInKeys(es: Entries, k: string)
    ensures HasKey(es, k) <==> k in Keys(es)
  {
    if es != [] {
      HasKeyIffInKeys(es[1..], k);
    }
  }

  /** A Ruby Hash never holds a key twice. */
  predicate DistinctKeys(es: Entries)
  {
    es == [] || (!HasKey(es[1..], es[0].0) && DistinctKeys(es[1..]))
  }

  /** `h[k]`: the value stored under `k`, or nil. */
  function Lookup(es: Entries, k: string): (v: Value)
    ensures !HasKey(es, k) ==> v == Nil
  {
    if es == [] then Nil
    else if es[0].0 == k then es[0].1
    else Lookup(es[1..], k)
  }

  /** `h[k] = v`: replaces the value in place, or appends a new pair. */
  function Put(es: Entries, k: string, v: Value): (r: Entries)
    ensures HasKey(r, k)
  {
    if es == [] then [(k, v)]
    else if es[0].0 == k then [(k, v)] + es[1..]
    else [es[0]] + Put(es[1..], k, v)
  }

  /** `h.delete(k)`. */
  function Remove(es: Entries, k: string): (r: Entries)
    ensures |r| <= |es|
  {
    if es == [] then []
    else if es[0].0 == k then es[1..]
    else [es[0]] + Remove(es[1..], k)
  }

  lemma {:induction false} LookupIn(es: Entries, i: nat)
    requires DistinctKeys(es) && i < |es|
    ensures HasKey(es, es[i].0) && Lookup(es, es[i].0) == es[i].1
  {
    if i > 0 {
      LookupIn(es[1..], i - 1);
      assert es[1..][i - 1] == es[i];
    }
  }

  lemma {:induction false} PutLookup(es: Entries, k: string, v: Value, k': string)
    ensures Lookup(Put(es, k, v), k') == if k' == k then v else Lookup(es, k')
    ensures HasKey(Put(es, k, v), k') <==> k' == k || HasKey(es, k')
  {
    if es != [] && es[0].0 != k {
      PutLookup(es[1..], k, v, k');
    }
  }

  lemma {:induction false} RemoveLookup(es: Entries, k: string, k': string)
    requires DistinctKeys(es)
    ensures Lookup(Remove(es, k), k') == if k' == k then Nil else Lookup(es, k')
    ensures HasKey(Remove(es, k), k') <==> k' != k && HasKey(es, k')
  {
    if es != [] {
      RemoveLookup(es[1..], k, k');
      if es[0].0 == k {
        assert !HasKey(es[1..], k);
      }
    }
  }

  lemma {:induction false} PutDistinct(es: Entries, k: string, v: Value)
    requires DistinctKeys(es)
    ensures DistinctKeys(Put(es, k, v))
  {
    if es != [] && es[0].0 != k {
      PutDistinct(es[1..], k, v);
      PutLookup(es[1..], k, v, es[0].0);
    }
  }

  lemma {:induction false} RemoveDistinct(es: Entries, k: string)
    requires DistinctKeys(es)
    ensures DistinctKeys(Remove(es, k))
  {
    if es != [] && es[0].0 != k {
      RemoveDistinct(es[1..], k);
      RemoveLookup(es[1..], k, es[0].0);
    }
  }

  lemma {:induction false} LookupAppend(a: Entries, b: Entries, k: string)
    requires !HasKey(a, k)
    ensures Lookup(a + b, k) == Lookup(b, k)
  {
    if a != [] {
      assert (a + b)[1..] == a[1..] + b;
      LookupAppend(a[1..], b, k);
    } else {
      assert a + b == b;
    }
  }

  lemma {:induction false} PutAppend(a: Entries, b: Entries, k: string, v: Value)
    requires !HasKey(a, k)
    ensures Put(a + b, k, v) == a + Put(b, k, v)
  {
    if a != [] {
      assert (a + b)[1..] == a[1..] + b;
      PutAppend(a[1..], b, k, v);
    } else {
      assert a + b == b;
    }
  }

  lemma {:induction false} RemoveAppend(a: Entries, b: Entries, k: string)
    requires !HasKey(a, k)
    ensures Remove(a + b, k) == a + Remove(b, k)
  {
    if a != [] {
      assert (a + b)[1..] == a[1..] + b;
      RemoveAppend(a[1..], b, k);
    } else {
      assert a + b == b;
    }
  }

  lemma {:induction false} HasKeyAppend(a: Entries, b: Entries, k: string)
    ensures HasKey(a + b, k) <==> HasKey(a, k) || HasKey(b, k)
  {
    if a != [] {
      assert (a + b)[1..] == a[1..] + b;
      HasKeyAppend(a[1..], b, k);
    } else {
      assert a + b == b;
    }
  }

  lemma {:induction false} HasKeyAt(es: Entries, i: nat)
    requires i < |es|
    ensures HasKey(es, es[i].0)
  {
    if i > 0 {
      HasKeyAt(es[1..], i - 1);
      assert es[1..][i - 1] == es[i];
    }
  }

  lemma {:induction false} HasKeyIndex(es: Entries, k: string)
    requires HasKey(es, k)
    ensures exists i :: 0 <= i < |es| && es[i].0 == k
  {
    if es[0].0 != k {
      HasKeyIndex(es[1..], k);
      var i :| 0 <= i < |es[1..]| && es[1..][i].0 == k;
      assert es[i + 1].0 == k;
    }
  }

  lemma {:induction false} LookupAppendLeft(a: Entries, b: Entries, k: string)
    requires HasKey(a, k)
    ensures Lookup(a + b, k) == Lookup(a, k)
  {
    assert (a + b)[1..] == a[1..] + b;
    if a[0].0 != k {
      LookupAppendLeft(a[1..], b, k);
    }
  }

  /** A concatenation has distinct keys iff both halves do and share none. */
  lemma {:induction false} DistinctAppend(a: Entries, b: Entries)
    ensures DistinctKeys(a + b) <==>
      DistinctKeys(a) && DistinctKeys(b) && forall k :: HasKey(a, k) ==> !HasKey(b, k)
  {
    if a == [] {
      assert a + b == b;
    } else {
      assert (a + b)[1..] == a[1..] + b;
      DistinctAppend(a[1..], b);
      HasKeyAppend(a[1..], b, a[0].0);
    }
  }

  /** Concatenation regrouped around one entry. */
  lemma Regroup(a: Entries, x: (string, Value), b: Entries)
    ensures a + ([x] + b) == a + [x] + b
  {
  }

  /** `h[k]`, `h[k] = v` and `h.delete(k)` on the key that follows the
      part `a` of the hash that does not hold it. */
  lemma AtKey(a: Entries, k: string, v0: Value, v: Value, rest: Entries)
    requires !HasKey(a, k)
    ensures Lookup(a + ([(k, v0)] + rest), k) == v0
    ensures Put(a + ([(k, v0)] + rest), k, v) == a + ([(k, v)] + rest)
    ensures Remove(a + ([(k, v0)] + rest), k) == a + rest
  {
    var es := [(k, v0)] + rest;
    assert es[1..] == rest;
    LookupAppend(a, es, k);
    PutAppend(a, es, k, v);
    RemoveAppend(a, es, k);
  }

  /** A measure that shrinks from a hash to the hashes nested in it, for
      recursion down a hash (arrays are not looked into). */
  function Size(v: Value): nat
    decreases v, 1, 0
  {
    if v.Hash? then 1 + SizeFrom(v, 0) else 1
  }

  function SizeFrom(v: Value, i: nat): nat
    requires v.Hash? && i <= |v.entries|
    decreases v, 0, |v.entries| - i
  {
    if i == |v.entries| then 0 else Size(v.entries[i].1) + SizeFrom(v, i + 1)
  }

  function EntriesSize(es: Entries): nat
  {
    SizeFrom(Hash(es), 0)
  }

  lemma {:induction false} SizeFromShift(es: Entries, i: nat)
    requires 1 <= i <= |es|
    ensures SizeFrom(Hash(es), i) == SizeFrom(Hash(es[1..]), i - 1)
    decreases |es| - i
  {
    if i < |es| {
      SizeFromShift(es, i + 1);
      assert es[1..][i - 1] == es[i];
    }
  }

  lemma EntriesSizeCons(es: Entries)
    requires es != []
    ensures EntriesSize(es) == Size(es[0].1) + EntriesSize(es[1..])
  {
    SizeFromShift(es, 1);
  }

  /** A Ruby Hash object, which the datamodel code changes in place. */
  class RubyHash {
    var entries: Entries

    ghost predicate Valid()
      reads this
    {
      DistinctKeys(entries)
    }

    constructor (es: Entries)
      requires DistinctKeys(es)
      ensures Valid() && entries == es
    {
      entries := es;
    }

    /** `h[k]` */
    function Get(k: string): (v: Value)
      reads this
      ensures !HasKey(entries, k) ==> v == Nil
    {
      Lookup(entries, k)
    }

    /** `h[k] = v` */
    method Set(k: string, v: Value)
      requires Valid()
      modifies this
      ensures Valid()
      ensures entries == Put(old(entries), k, v)
    {
      PutDistinct(entries, k, v);
      entries := Put(entries, k, v);
    }

    /** `h.delete(k)` */
    method Delete(k: string)
      requires Valid()
      modifies this
      ensures Valid()
      ensures entries == Remove(old(entries), k)
    {
      RemoveDistinct(entries, k);
      entries := Remove(entries, k);
    }
  }
}
