/**
 * The generic hash helpers of `DataModelObject`
 * (app/models/concerns/data_model_object.rb): `remove_blank_values`, which
 * cleans a hash in place, and `sort_hash`, which rebuilds a hash with its
 * keys in order at every nested level.
 */
module DatamodelHash {
  import opened RubyText
  import opened RubyValue

  // ---------------------------------------------------------------------
  // remove_blank_values

  /** `a.reject! { |x| x.blank? }` */
  function RejectBlank(xs: seq<Value>): (r: seq<Value>)
    ensures |r| <= |xs|
    ensures forall v :: v in r <==> v in xs && Present(v)
    ensures (forall i :: 0 <= i < |xs| ==> Present(xs[i])) ==> r == xs
  {
    if xs == [] then []
    else (if Present(xs[0]) then [xs[0]] else []) + RejectBlank(xs[1..])
  }

  /** `reject!` keeps every present element as often as it occurs and
      drops every blank one. */
  lemma {:induction false} RejectBlankCount(xs: seq<Value>)
    ensures forall v :: multiset(RejectBlank(xs))[v] == (if Present(v) then multiset(xs)[v] else 0)
  {
    if xs != [] {
      RejectBlankCount(xs[1..]);
      assert xs == [xs[0]] + xs[1..];
    }
  }

  /** `reject!` keeps the order of what it keeps: it works element by
      element, so it distributes over concatenation. */
  lemma {:induction false} RejectBlankAppend(a: seq<Value>, b: seq<Value>)
    ensures RejectBlank(a + b) == RejectBlank(a) + RejectBlank(b)
  {
    if a != [] {
      assert (a + b)[1..] == a[1..] + b;
      RejectBlankAppend(a[1..], b);
    } else {
      assert a + b == b;
    }
  }

  /** The value left under a key once its array (if it is one) has lost its
      blank elements. */
  function Cleaned(v: Value): Value
  {
    if v.Arr? then Arr(RejectBlank(v.items)) else v
  }

  /** What is left under a key whose value was `v`: the cleaned value, or
      nothing (nil) if that is blank. */
  function Kept(v: Value): (r: Value)
    ensures Present(r) || r == Nil
  {
    if Present(Cleaned(v)) then Cleaned(v) else Nil
  }

  /** One turn of the loop: the entry, cleaned, unless it is then blank. */
  function CleanEntry(e: (string, Value)): Entries
  {
    var v := Cleaned(e.1);
    if Present(v) then [(e.0, v)] else []
  }

  /** What `remove_blank_values` leaves of a hash, visiting keys in order. */
  function WithoutBlanks(es: Entries): Entries
    decreases |es|
  {
    if es == [] then [] else WithoutBlanks(es[..|es| - 1]) + CleanEntry(es[|es| - 1])
  }

  /** Every value is present and no array holds a blank element. */
  predicate NoBlanks(es: Entries)
  {
    forall i :: 0 <= i < |es| ==> Present(es[i].1) && Cleaned(es[i].1) == es[i].1
  }

  /** `remove_blank_values(object_hash)`: changes the hash in place and
      returns it. */
  method RemoveBlankValues(h: RubyHash) returns (r: RubyHash)
    requires h.Valid()
    modifies h
    ensures r == h && h.Valid()
    ensures h.entries == WithoutBlanks(old(h.entries))
  {
    ghost var es0 := h.entries;
    var keys := Keys(h.entries);
    assert es0[..0] == [] && es0[0..] == es0;
    for i := 0 to |keys|
      invariant h.Valid()
      invariant h.entries == WithoutBlanks(es0[..i]) + es0[i..]
    {
      CleanKey(h, es0, i, keys[i]);
    }
    assert es0[..|keys|] == es0;
    return h;
  }

  /** One turn of the loop of `remove_blank_values`: the key `k` at position
      `i` of the original entries is cleaned, nothing else changes. */
  method CleanKey(h: RubyHash, ghost es: Entries, i: nat, k: string)
    requires DistinctKeys(es) && i < |es| && k == es[i].0
    requires h.Valid() && h.entries == WithoutBlanks(es[..i]) + es[i..]
    modifies h
    ensures h.Valid() && h.entries == WithoutBlanks(es[..i + 1]) + es[i + 1..]
  {
    ghost var done, v0, rest := WithoutBlanks(es[..i]), es[i].1, es[i + 1..];
    CleanPrefixFresh(es, i);
    assert es[i] == (k, v0);
    assert es[i..] == [(k, v0)] + rest;
    CleanArray(h, k, done, v0, rest);
    DropIfBlank(h, k, done, v0, rest);
    CleanPrefixJoin(es, i, k, v0, h.entries);
  }

  /** `h[k].reject! { |x| x.blank? }` when `h[k]` is an array. */
  method CleanArray(h: RubyHash, k: string, ghost done: Entries, ghost v0: Value, ghost rest: Entries)
    requires h.Valid() && h.entries == done + ([(k, v0)] + rest) && !HasKey(done, k)
    modifies h
    ensures h.Valid() && h.entries == done + ([(k, Cleaned(v0))] + rest)
  {
    AtKey(done, k, v0, Cleaned(v0), rest);
    var v := h.Get(k);
    if v.Arr? {
      h.Set(k, Arr(RejectBlank(v.items)));
    }
  }

  /** `h.delete(k) unless h[k].present?`, once `h[k]` holds the cleaned
      form of `v0`. */
  method DropIfBlank(h: RubyHash, k: string, ghost done: Entries, ghost v0: Value, ghost rest: Entries)
    requires h.Valid() && h.entries == done + ([(k, Cleaned(v0))] + rest) && !HasKey(done, k)
    modifies h
    ensures h.Valid() && h.entries == done + CleanEntry((k, v0)) + rest
  {
    ghost var c := Cleaned(v0);
    AtKey(done, k, c, c, rest);
    if !Present(h.Get(k)) {
      h.Delete(k);
      assert CleanEntry((k, v0)) == [];
      assert done + [] == done;
    } else {
      assert CleanEntry((k, v0)) == [(k, c)];
      Regroup(done, (k, c), rest);
    }
  }

  lemma CleanPrefixFresh(es: Entries, i: nat)
    requires DistinctKeys(es) && i < |es|
    ensures !HasKey(WithoutBlanks(es[..i]), es[i].0)
  {
    KeyNotBefore(es, i);
    WithoutBlanksHasKey(es[..i], es[i].0);
  }

  /** Cleaning the entry at i, once i is cleaned in place, extends the
      cleaned prefix by one. */
  lemma CleanPrefixJoin(es: Entries, i: nat, k: string, v0: Value, entries: Entries)
    requires i < |es| && es[i] == (k, v0)
    requires entries == WithoutBlanks(es[..i]) + CleanEntry((k, v0)) + es[i + 1..]
    ensures entries == WithoutBlanks(es[..i + 1]) + es[i + 1..]
  {
    CleanPrefixSnoc(es, i);
  }

  lemma CleanPrefixSnoc(es: Entries, i: nat)
    requires i < |es|
    ensures WithoutBlanks(es[..i + 1]) == WithoutBlanks(es[..i]) + CleanEntry(es[i])
  {
    var p := es[..i + 1];
    assert p[..|p| - 1] == es[..i] && p[|p| - 1] == es[i];
  }

  /** In a hash with distinct keys, no earlier entry has the key of entry i. */
  lemma KeyNotBefore(es: Entries, i: nat)
    requires DistinctKeys(es) && i < |es|
    ensures !HasKey(es[..i], es[i].0)
  {
    assert es == es[..i] + es[i..];
    DistinctAppend(es[..i], es[i..]);
    HasKeyAt(es[i..], 0);
    assert es[i..][0] == es[i];
  }

  /** A key survives exactly when some entry under it has a present
      cleaned value; in particular, only keys of the input survive. */
  lemma {:induction false} WithoutBlanksHasKey(es: Entries, k: string)
    ensures HasKey(WithoutBlanks(es), k) <==>
            exists i :: 0 <= i < |es| && es[i].0 == k && Present(Cleaned(es[i].1))
    ensures HasKey(WithoutBlanks(es), k) ==> HasKey(es, k)
    decreases |es|
  {
    if es != [] {
      var n := |es| - 1;
      var init := es[..n];
      assert es == init + [es[n]];
      WithoutBlanksHasKey(init, k);
      HasKeyAppend(WithoutBlanks(init), CleanEntry(es[n]), k);
      if HasKey(WithoutBlanks(es), k) && HasKey(WithoutBlanks(init), k) {
        var i :| 0 <= i < |init| && init[i].0 == k && Present(Cleaned(init[i].1));
        assert es[i] == init[i];
      }
      if exists i :: 0 <= i < |es| && es[i].0 == k && Present(Cleaned(es[i].1)) {
        var i :| 0 <= i < |es| && es[i].0 == k && Present(Cleaned(es[i].1));
        if i < n {
          assert init[i] == es[i];
        }
      }
    }
    if HasKey(WithoutBlanks(es), k) {
      var i :| 0 <= i < |es| && es[i].0 == k && Present(Cleaned(es[i].1));
      HasKeyAt(es, i);
    }
  }

  /** What is left under each key: its cleaned value when present, and
      nothing otherwise; the keys stay distinct. */
  lemma {:induction false} WithoutBlanksLookup(es: Entries, k: string)
    requires DistinctKeys(es)
    ensures DistinctKeys(WithoutBlanks(es))
    ensures HasKey(WithoutBlanks(es), k) <==> HasKey(es, k) && Present(Cleaned(Lookup(es, k)))
    ensures Lookup(WithoutBlanks(es), k) ==
            if Present(Cleaned(Lookup(es, k))) then Cleaned(Lookup(es, k)) else Nil
    decreases |es|
  {
    if es != [] {
      var n := |es| - 1;
      var init, last := es[..n], es[n];
      assert es == init + [last];
      DistinctAppend(init, [last]);
      WithoutBlanksLookup(init, k);
      WithoutBlanksLookup(init, last.0);
      CleanEntryLookup(WithoutBlanks(init), init, last, k);
    }
  }

  /** One more entry on the input adds at most that entry, cleaned, to the
      output, and keeps the lookup correspondence of the two. */
  lemma CleanEntryLookup(w: Entries, init: Entries, last: (string, Value), k: string)
    requires DistinctKeys(init + [last]) && DistinctKeys(w) && !HasKey(w, last.0)
    requires HasKey(w, k) <==> HasKey(init, k) && Present(Cleaned(Lookup(init, k)))
    requires Lookup(w, k) == if Present(Cleaned(Lookup(init, k))) then Cleaned(Lookup(init, k)) else Nil
    ensures DistinctKeys(w + CleanEntry(last))
    ensures HasKey(w + CleanEntry(last), k) <==>
            HasKey(init + [last], k) && Present(Cleaned(Lookup(init + [last], k)))
    ensures Lookup(w + CleanEntry(last), k) ==
            if Present(Cleaned(Lookup(init + [last], k))) then Cleaned(Lookup(init + [last], k)) else Nil
  {
    DistinctAppend(init, [last]);
    HasKeyAppend(w, CleanEntry(last), k);
    HasKeyAppend(init, [last], k);
    DistinctAppend(w, CleanEntry(last));
    if HasKey(init, k) {
      LookupAppendLeft(init, [last], k);
      assert k != last.0;
      if HasKey(w, k) {
        LookupAppendLeft(w, CleanEntry(last), k);
      } else {
        LookupAppend(w, CleanEntry(last), k);
      }
    } else {
      LookupAppend(init, [last], k);
      LookupAppend(w, CleanEntry(last), k);
    }
  }

  /** The keys of what is left stay in their order. */
  lemma {:induction false} WithoutBlanksAscending(es: Entries)
    requires Ascending(es)
    ensures Ascending(WithoutBlanks(es))
    decreases |es|
  {
    if es != [] {
      var n := |es| - 1;
      var init := es[..n];
      WithoutBlanksAscending(init);
      var w := WithoutBlanks(init);
      var r := WithoutBlanks(es);
      assert r == w + CleanEntry(es[n]);
      forall i | 0 <= i < |w| ensures Less(w[i].0, es[n].0) {
        HasKeyAt(w, i);
        WithoutBlanksHasKey(init, w[i].0);
        HasKeyIndex(init, w[i].0);
        var j :| 0 <= j < |init| && init[j].0 == w[i].0;
        assert init[j] == es[j];
      }
    }
  }

  /** Nothing blank is left behind. */
  lemma {:induction false} WithoutBlanksNoBlanks(es: Entries)
    ensures NoBlanks(WithoutBlanks(es))
    decreases |es|
  {
    if es != [] {
      WithoutBlanksNoBlanks(es[..|es| - 1]);
      var v := Cleaned(es[|es| - 1].1);
      assert v.Arr? ==> RejectBlank(v.items) == v.items;
    }
  }

  /** A hash with nothing blank is left as it is. */
  lemma {:induction false} WithoutBlanksOfClean(es: Entries)
    requires NoBlanks(es)
    ensures WithoutBlanks(es) == es
    decreases |es|
  {
    if es != [] {
      var n := |es| - 1;
      assert NoBlanks(es[..n]) by {
        forall i | 0 <= i < n ensures Present(es[..n][i].1) && Cleaned(es[..n][i].1) == es[..n][i].1 {
          assert es[..n][i] == es[i];
        }
      }
      WithoutBlanksOfClean(es[..n]);
      assert es == es[..n] + [es[n]];
    }
  }

  /** `remove_blank_values` is idempotent. */
  lemma RemoveBlankValuesIdempotent(es: Entries)
    ensures WithoutBlanks(WithoutBlanks(es)) == WithoutBlanks(es)
  {
    WithoutBlanksNoBlanks(es);
    WithoutBlanksOfClean(WithoutBlanks(es));
  }

  // ---------------------------------------------------------------------
  // sort_hash

  /** Keys strictly ascending in `String#<=>` order. */
  predicate Ascending(es: Entries)
  {
    forall i, j :: 0 <= i < j < |es| ==> Less(es[i].0, es[j].0)
  }

  /** Ascending at this level and in every hash value, recursively (arrays
      are not looked into). */
  predicate DeepSorted(es: Entries)
    decreases EntriesSize(es), 1
  {
    Ascending(es) && NestedSorted(es)
  }

  predicate NestedSorted(es: Entries)
    decreases EntriesSize(es), 0
  {
    es == [] ||
    (EntriesSizeCons(es);
     (es[0].1.Hash? ==> DeepSorted(es[0].1.entries)) && NestedSorted(es[1..]))
  }

  /** Distinct keys at this level and in every hash value, recursively. */
  predicate DeepDistinct(es: Entries)
    decreases EntriesSize(es), 1
  {
    DistinctKeys(es) && NestedDistinct(es)
  }

  predicate NestedDistinct(es: Entries)
    decreases EntriesSize(es), 0
  {
    es == [] ||
    (EntriesSizeCons(es);
     (es[0].1.Hash? ==> DeepDistinct(es[0].1.entries)) && NestedDistinct(es[1..]))
  }

  /** One step of the sort: `e` placed before the first key above it. */
  function Insert(e: (string, Value), es: Entries): (r: Entries)
    ensures multiset(r) == multiset(es) + multiset{e}
    ensures |r| == |es| + 1
  {
    if es == [] then [e]
    else
      assert es == [es[0]] + es[1..];
      if Less(es[0].0, e.0) then [es[0]] + Insert(e, es[1..]) else [e] + es
  }

  /** `sort_hash(hash)`: `hash.sort` orders the pairs by key, and each hash
      value is sorted in turn. */
  function SortHash(es: Entries): (r: Entries)
    ensures |r| == |es|
    decreases EntriesSize(es)
  {
    if es == [] then []
    else
      EntriesSizeCons(es);
      var v := es[0].1;
      Insert((es[0].0, if v.Hash? then Hash(SortHash(v.entries)) else v), SortHash(es[1..]))
  }

  /** The value `sort_hash` stores under a key. */
  function SortValue(v: Value): (r: Value)
    ensures !v.Hash? ==> r == v
  {
    if v.Hash? then Hash(SortHash(v.entries)) else v
  }

  lemma {:induction false} InsertLookup(e: (string, Value), es: Entries, k: string)
    requires !HasKey(es, e.0)
    ensures HasKey(Insert(e, es), k) <==> k == e.0 || HasKey(es, k)
    ensures Lookup(Insert(e, es), k) == if k == e.0 then e.1 else Lookup(es, k)
  {
    if es != [] && Less(es[0].0, e.0) {
      InsertLookup(e, es[1..], k);
    }
  }

  /** `sort_hash` keeps every key, and under each key the value, sorted if
      it is a hash and unchanged otherwise. */
  lemma {:induction false} SortHashLookup(es: Entries, k: string)
    requires DistinctKeys(es)
    ensures |SortHash(es)| == |es| && DistinctKeys(SortHash(es))
    ensures HasKey(SortHash(es), k) <==> HasKey(es, k)
    ensures Lookup(SortHash(es), k) == SortValue(Lookup(es, k))
  {
    if es != [] {
      var e := (es[0].0, SortValue(es[0].1));
      SortHashLookup(es[1..], k);
      SortHashLookup(es[1..], es[0].0);
      InsertLookup(e, SortHash(es[1..]), k);
      assert |Insert(e, SortHash(es[1..]))| == |multiset(Insert(e, SortHash(es[1..])))|;
      InsertDistinct(e, SortHash(es[1..]));
    }
  }

  lemma {:induction false} InsertDistinct(e: (string, Value), es: Entries)
    requires DistinctKeys(es) && !HasKey(es, e.0)
    ensures DistinctKeys(Insert(e, es))
  {
    if es != [] && Less(es[0].0, e.0) {
      InsertDistinct(e, es[1..]);
      InsertLookup(e, es[1..], es[0].0);
    }
  }

  lemma {:induction false} InsertAscending(e: (string, Value), es: Entries)
    requires Ascending(es) && !HasKey(es, e.0)
    ensures Ascending(Insert(e, es))
  {
    if es != [] {
      var r := Insert(e, es);
      if Less(es[0].0, e.0) {
        InsertAscending(e, es[1..]);
        assert multiset(Insert(e, es[1..])) == multiset(es[1..]) + multiset{e};
        forall j | 0 < j < |r| ensures Less(r[0].0, r[j].0) {
          assert r[j] in multiset(Insert(e, es[1..]));
          if r[j] != e {
            var m :| 0 <= m < |es[1..]| && es[1..][m] == r[j];
            assert es[m + 1] == r[j];
          }
        }
      } else {
        HasKeyAt(es, 0);
        LessTrichotomy(es[0].0, e.0);
        forall j | 0 < j < |r| ensures Less(r[0].0, r[j].0) {
          if j > 1 {
            LessTransitive(e.0, es[0].0, es[j - 1].0);
          }
        }
      }
    }
  }

  /** The top-level keys of `sort_hash(hash)` are in ascending order. */
  lemma {:induction false} SortHashAscending(es: Entries)
    requires DistinctKeys(es)
    ensures Ascending(SortHash(es))
  {
    if es != [] {
      SortHashAscending(es[1..]);
      SortHashLookup(es[1..], es[0].0);
      InsertAscending((es[0].0, SortValue(es[0].1)), SortHash(es[1..]));
    }
  }

  lemma {:induction false} InsertNested(e: (string, Value), es: Entries)
    requires NestedSorted(es) && (e.1.Hash? ==> DeepSorted(e.1.entries))
    ensures NestedSorted(Insert(e, es))
  {
    if es != [] {
      assert es == [es[0]] + es[1..];
      var r := Insert(e, es);
      if Less(es[0].0, e.0) {
        InsertNested(e, es[1..]);
        assert r[1..] == Insert(e, es[1..]);
      } else {
        assert r[1..] == es;
      }
    }
  }

  /** Keys are in ascending order at every nested-hash level of
      `sort_hash(hash)`. */
  lemma {:induction false} SortHashDeepSorted(es: Entries)
    requires DeepDistinct(es)
    ensures DeepSorted(SortHash(es))
    decreases EntriesSize(es)
  {
    SortHashAscending(es);
    if es != [] {
      EntriesSizeCons(es);
      var v := es[0].1;
      if v.Hash? {
        SortHashDeepSorted(v.entries);
      }
      SortHashDeepSorted(es[1..]);
      InsertNested((es[0].0, SortValue(v)), SortHash(es[1..]));
    }
  }

  /** A hash already sorted at every level is rebuilt unchanged. */
  lemma {:induction false} SortHashOfSorted(es: Entries)
    requires DeepSorted(es)
    ensures SortHash(es) == es
    decreases EntriesSize(es)
  {
    if es != [] {
      EntriesSizeCons(es);
      var v := es[0].1;
      var tail := es[1..];
      if v.Hash? {
        SortHashOfSorted(v.entries);
      }
      assert SortValue(v) == v;
      SortedTail(es);
      SortHashOfSorted(tail);
      InsertBeforeHead(es[0], tail);
      SortHashCons(es);
      assert es == [es[0]] + tail;
    }
  }

  /** `sort_hash` on a non-empty hash inserts the sorted first entry into
      the sorted rest. */
  lemma SortHashCons(es: Entries)
    requires es != []
    ensures SortHash(es) == Insert((es[0].0, SortValue(es[0].1)), SortHash(es[1..]))
  {
  }

  /** Dropping the first entry of a sorted hash leaves a sorted hash. */
  lemma SortedTail(es: Entries)
    requires DeepSorted(es) && es != []
    ensures DeepSorted(es[1..])
    ensures es[1..] != [] ==> Less(es[0].0, es[1..][0].0)
  {
    var tail := es[1..];
    forall i, j | 0 <= i < j < |tail| ensures Less(tail[i].0, tail[j].0) {
      assert tail[i] == es[i + 1] && tail[j] == es[j + 1];
    }
    if tail != [] {
      assert tail[0] == es[1];
    }
  }

  /** An entry whose key is below the first key goes to the front. */
  lemma InsertBeforeHead(e: (string, Value), es: Entries)
    requires es != [] ==> Less(e.0, es[0].0)
    ensures Insert(e, es) == [e] + es
  {
    if es != [] {
      LessTrichotomy(es[0].0, e.0);
    }
  }

  /** `sort_hash` is idempotent. */
  lemma SortHashIdempotent(es: Entries)
    requires DeepDistinct(es)
    ensures SortHash(SortHash(es)) == SortHash(es)
  {
    SortHashDeepSorted(es);
    SortHashOfSorted(SortHash(es));
  }
}
