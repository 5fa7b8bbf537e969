/** The table of stored nodes and its rewriting constructors. */
module ExpContexts {
  import opened Results
  import opened Languages
  import opened Expressions
  import opened Alternatives

  class ExpContext {
    /** The hash of a name. */
    const hash: Token -> nat
    var store: Store
    var table: seq<seq<nat>>

    ghost predicate Valid()
      reads this
    {
      Intact(store, table, hash) && Unique(store)
    }

    constructor (size: nat, hash: Token -> nat)
      requires size > 0
      ensures Valid() && |store| == 2 && |table| == size && this.hash == hash
    {
      this.hash := hash;
      store := [Entry(Forbid, 0, false), Entry(Empty, 0, true)];
      table := seq(size, _ => []);
      new;
      WellFormedIsAcyclic(store);
    }

    /** The one entry of a node: from its bucket when it is there, or a new one at the head of the bucket. */
    method FindOrAdd(node: Node, key: nat, nillable: bool) returns (r: nat)
      requires Valid() && Canonical(store, node, nillable)
      requires PartsBelow(node, |store|) && key == KeyOf(store, node, hash)
      modifies this
      ensures Valid() && old(store) <= store && r < |store| && store[r].node == node
      ensures forall e :: 0 <= e < |store| && store[e].node == node ==> e == r
      ensures store == if r < |old(store)| then old(store) else old(store) + [Entry(node, key, nillable)]
    {
      var bucket := table[key % |table|];
      for i := 0 to |bucket|
        invariant store == old(store) && table == old(table)
        invariant forall j :: 0 <= j < i ==> !(store[bucket[j]].key == key && store[bucket[j]].node == node)
      {
        var insert := bucket[i];
        if store[insert].key == key && store[insert].node == node {
          OnlyOne(store, node, insert);
          return insert;
        }
      }
      forall e | 0 <= e < |store|
        ensures store[e].node != node
      {
        if e >= 2 && store[e].node == node {
          NowhereElse(store, table, hash, node, e);
        }
      }
      r := |store|;
      Extend(store, Entry(node, key, nillable));
      AddHashed(store, table, hash, Entry(node, key, nillable));
      store := store + [Entry(node, key, nillable)];
      WellFormedIsAcyclic(store);
      table := table[key % |table| := [r] + bucket];
    }

    /** An atom. */
    method GetAtom(name: Token) returns (r: nat)
      requires Valid()
      modifies this
      ensures Valid() && old(store) <= store && r < |store|
      ensures L(store, r) == iset{[name]} && store[r].node == Atom(name)
      ensures forall e :: 0 <= e < |old(store)| && old(store)[e].node == Atom(name) ==> r == e && store == old(store)
    {
      r := FindOrAdd(Atom(name), Short(hash(name)), false);
    }

    /** A repetition; a negative minimum is refused with the forbidden node. */
    method GetCount(left: nat, min: int, max: int) returns (r: nat)
      requires Valid() && left < |store|
      requires min >= 0 ==> WellFormedCount(min, max)
      modifies this
      ensures Valid() && old(store) <= store && r < |store|
      ensures L(store, r) == if min < 0 then NOTHING else Rep(L(old(store), left), min, max)
      ensures min >= 0 && left != FORBIDDEN ==> r != FORBIDDEN
      ensures min == max == 1 ==> r == left && store == old(store)
      ensures min == max == 0 ==> store[r].node == Empty && store == old(store)
      ensures min < 0 ==> store[r].node == Forbid && store == old(store)
      ensures min >= 0 && !(min == max && min <= 1) ==> store[r].node == Count(left, min, max)
      ensures forall e :: 0 <= e < |old(store)| && old(store)[e].node == Count(left, min, max) ==>
        r == e && store == old(store)
    {
      RepOnce(L(store, left));
      if min < 0 || (min == max && min <= 1) {
        CountsAreReduced(store, left, min, max);
      }
      if min == max {
        if min == 1 {
          return left;
        }
        if min == 0 {
          return EMPTY;
        }
      }
      if min < 0 {
        return FORBIDDEN;
      }
      r := AddCount(left, min, max);
    }

    method AddCount(left: nat, min: int, max: int) returns (r: nat)
      requires Valid() && left < |store| && WellFormedCount(min, max) && !(min == max && min <= 1)
      modifies this
      ensures Valid() && old(store) <= store && r < |store| && r != FORBIDDEN && store[r].node == Count(left, min, max)
      ensures L(store, r) == Rep(L(old(store), left), min, max)
      ensures forall e :: 0 <= e < |old(store)| && old(store)[e].node == Count(left, min, max) ==>
        r == e && store == old(store)
    {
      var kbase := (if max == -1 then min + 79 else max - min) + store[left].key;
      ghost var before := store;
      r := FindOrAdd(Count(left, min, max), Short(kbase), min == 0 || store[left].nillable);
      LanguageStays(before, store, left);
    }

    method GetSeq(left: nat, right: nat) returns (r: nat)
      requires Valid() && left < |store| && right < |store|
      modifies this
      ensures Valid() && old(store) <= store && r < |store|
      ensures L(store, r) == Cat(L(old(store), left), L(old(store), right))
      ensures r == FORBIDDEN <==> left == FORBIDDEN || right == FORBIDDEN
      ensures {left, right} !! {FORBIDDEN, EMPTY} ==> store[r].node == Seq(left, right)
      ensures left == 1 || right == 1 ==> |store| == |old(store)| && (r == left || r == right)
      ensures forall e :: 0 <= e < |old(store)| && old(store)[e].node == Seq(left, right) ==>
        r == e && store == old(store)
    {
      OnlyStatics(store, left);
      OnlyStatics(store, right);
      SeqsAreReduced(store, left, right);
      if store[left].node == Forbid {
        CatNothing(L(store, right));
        return left;
      }
      if store[right].node == Forbid {
        CatNothing(L(store, left));
        return right;
      }
      if store[right].node == Empty {
        CatEmptyRight(L(store, left));
        return left;
      }
      if store[left].node == Empty {
        CatEmptyLeft(L(store, right));
        return right;
      }
      ghost var before := store;
      var kbase := (store[left].key + store[right].key) * 3;
      r := FindOrAdd(Seq(left, right), Short(kbase), store[left].nillable && store[right].nillable);
      LanguageStays(before, store, left);
      LanguageStays(before, store, right);
    }

    /**
     * An alternative. Reordering calls the constructor again, possibly without end; `fuel` bounds the
     * depth, and None means that it was used up. That depends on whether the alternatives can be joined.
     */
    method GetOr(left0: nat, right0: nat, fuel: nat) returns (r: Option<nat>)
      requires Valid() && left0 < |store| && right0 < |store|
      modifies this
      ensures Valid() && OrDone(old(store), store, left0, right0, fuel, r)
      ensures Apart(old(store), Union(old(store), left0, right0)) && !Joinable(old(store), left0, right0) ==> r == None
      ensures Joinable(old(store), left0, right0) && fuel >= Bound(old(store), left0, right0) ==> r.Some?
      decreases fuel, 2
    {
      var left, right := left0, right0;
      ghost var s := store;
      if store[left].node == Forbid {
        ExitDone(s, table, hash, left0, right0, fuel, right);
        return Some(right);
      }
      if store[right].node == Forbid || left == right {
        ExitDone(s, table, hash, left0, right0, fuel, left);
        return Some(left);
      }
      if store[left].node.Or? && !store[right].node.Or? {
        left, right := right, left;
      }
      if store[right].node.Or? && (left == store[right].node.left || left == store[right].node.right) {
        ExitDone(s, table, hash, left0, right0, fuel, right);
        return Some(right);
      }
      r := GetOrdered(left, right, fuel);
      if left != left0 {
        SwappedDone(s, store, left0, right0, fuel, r);
      }
    }

    /** The part of the constructor that puts the alternatives in order. */
    method GetOrdered(left0: nat, right0: nat, fuel: nat) returns (r: Option<nat>)
      requires Valid() && left0 < |store| && right0 < |store|
      requires !store[left0].node.Forbid? && !store[right0].node.Forbid? && left0 != right0
      requires store[left0].node.Or? ==> store[right0].node.Or?
      requires store[right0].node.Or? ==> left0 != store[right0].node.left && left0 != store[right0].node.right
      modifies this
      ensures Valid() && OrDone(old(store), store, left0, right0, fuel, r)
      decreases fuel, 1
    {
      var left, right := left0, right0;
      ghost var s := store;
      OrIsSettled(s, left);
      OrIsSettled(s, right);
      if store[left].node.Or? {
        r := JoinGroups(left, right, fuel);
        return;
      }
      if store[right].node.Or? {
        var parts := store[right].node;
        if store[left].key > store[parts.right].key {
          r := PutInside(left, right, parts.right, left, fuel);
          return;
        }
        if store[left].key > store[parts.left].key {
          r := PutInside(left, right, left, parts.right, fuel);
          return;
        }
      } else if store[left].key > store[right].key {
        left, right := right, left;
      }
      r := AddOr(left, right, fuel);
      if left != left0 {
        SwappedDone(s, store, left0, right0, fuel, r);
      }
    }

    /** (a | b) | c becomes a | (b | c), for an OR on both sides. */
    method JoinGroups(left: nat, right: nat, fuel: nat) returns (r: Option<nat>)
      requires Valid() && left < |store| && right < |store| && store[left].node.Or? && store[right].node.Or?
      modifies this
      ensures Valid() && OrDone(old(store), store, left, right, fuel, r)
      decreases fuel, 0, 1
    {
      ghost var s, before := store, table;
      OrIsSettled(s, left);
      // the in-place swap of the parts of `left` would happen here; the parts are always in order already
      assert store[store[left].node.right].node.Or?
        || store[store[left].node.right].key >= store[store[left].node.left].key;
      ghost var mid, u, now;
      r, mid, u, now := Regroup(store[left].node.left, store[left].node.right, right, fuel);
      LeftDone(s, u, store, table, hash, left, right, fuel, mid, r, before);
    }

    /** c | (a | b) becomes a | (b | c) or a | (c | b). */
    method PutInside(left: nat, right: nat, b: nat, c: nat, fuel: nat) returns (r: Option<nat>)
      requires Valid() && left < |store| && right < |store| && Plain(store, left) && store[right].node.Or?
      requires store[right].node.left < |store| && store[right].node.right < |store|
      requires left != store[right].node.left && Inner(store, left, right, b, c)
      requires store[left].key > store[store[right].node.right].key
        || store[left].key > store[store[right].node.left].key
      modifies this
      ensures Valid() && OrDone(old(store), store, left, right, fuel, r)
      decreases fuel, 0, 1
    {
      ghost var s, before := store, table;
      ghost var mid, u, now;
      r, mid, u, now := Regroup(store[right].node.left, b, c, fuel);
      GroupDone(s, u, store, before, hash, left, right, b, c, fuel, mid, r, now, table);
    }

    /** A node for two alternatives in order. */
    method AddOr(left: nat, right: nat, ghost fuel: nat) returns (r: Option<nat>)
      requires Valid() && left < |store| && right < |store| && Plain(store, left) && !store[right].node.Forbid?
      requires Settled(store, left, right)
      modifies this
      ensures Valid() && OrDone(old(store), store, left, right, fuel, r)
    {
      ghost var s := store;
      var kbase := (store[left].key + store[right].key) * 7;
      var id := FindOrAdd(Or(left, right), Short(kbase), store[left].nillable || store[right].nillable);
      NewNodeDone(s, store, table, hash, left, right, fuel, id);
      r := Some(id);
    }

    /** a | (b | c), built from the inside out. */
    method Regroup(a: nat, b: nat, c: nat, fuel: nat)
      returns (r: Option<nat>, ghost mid: Option<nat>, ghost u: Store, ghost now: seq<seq<nat>>)
      requires Valid() && a < |store| && b < |store| && c < |store|
      modifies this
      ensures Valid() && Intact(u, now, hash) && Regrouped(old(store), u, store, a, b, c, fuel, mid, r)
      decreases fuel, 0, 0
    {
      mid, u, now := None, store, table;
      if fuel == 0 {
        return None, mid, u, now;
      }
      var tmp := GetOr(b, c, fuel - 1);
      mid, u, now := tmp, store, table;
      if tmp == None {
        return None, mid, u, now;
      }
      r := GetOr(a, tmp.value, fuel - 1);
    }
  }
}
