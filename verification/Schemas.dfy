/** Schemas: bit sets over a fixed number of parameters. */
module Schemas {
  import opened Results
  import opened Combs

  datatype RawSchema = Schema(bits: set<nat>, size: nat)

  /** No bit lies past the logical size. */
  type Schema = s: RawSchema | forall i :: i in s.bits ==> i < s.size witness Schema({}, 0)

  function Indices(n: nat): (r: set<nat>)
    ensures forall i :: i in r <==> 0 <= i < n
  {
    if n == 0 then {} else Indices(n - 1) + {n - 1}
  }

  function Empty(size: nat): Schema {
    Schema({}, size)
  }

  function Full(size: nat): Schema {
    Schema(Indices(size), size)
  }

  function And(a: Schema, b: Schema): Result<Schema> {
    if a.size != b.size then Err else Ok(Schema(a.bits * b.bits, a.size))
  }

  function IsSubsetOf(a: Schema, b: Schema): (r: Result<bool>)
    ensures r == if a.size == b.size then Ok(a.bits <= b.bits) else Err
  {
    if a.size != b.size then Err
    else
      assert a.bits * b.bits == a.bits <==> a.bits <= b.bits;
      Ok(And(a, b).value.bits == a.bits)
  }

  function IsSupersetOf(a: Schema, b: Schema): (r: Result<bool>)
    ensures r == if a.size == b.size then Ok(b.bits <= a.bits) else Err
  {
    if a.size != b.size then Err else IsSubsetOf(b, a)
  }

  method FromComb(comb: Comb) returns (r: Schema)
    ensures r == Schema(Known(comb), |comb|)
  {
    var bits: set<nat> := {};
    for i := 0 to |comb|
      invariant bits == set j | 0 <= j < i && comb[j] != UNKNOWN
    {
      if comb[i] != UNKNOWN {
        bits := bits + {i};
      }
    }
    r := Schema(bits, |comb|);
  }

  method GetComb(s: Schema, test: Comb) returns (r: Comb)
    requires s.size == |test|
    ensures r == Mask(test, s.bits)
  {
    var elements := seq(s.size, _ => UNKNOWN);
    for i := 0 to s.size
      invariant |elements| == s.size
      invariant forall j :: 0 <= j < i ==> elements[j] == Mask(test, s.bits)[j]
    {
      if i in s.bits {
        elements := elements[i := test[i]];
      } else {
        elements := elements[i := UNKNOWN];
      }
    }
    r := elements;
  }

  /** The set bits in ascending order. */
  method GetIndices(s: Schema) returns (r: seq<nat>)
    ensures forall i :: i in r <==> i in s.bits
    ensures forall j, k :: 0 <= j < k < |r| ==> r[j] < r[k]
  {
    r := [];
    for i := 0 to s.size
      invariant forall j :: j in r <==> j in s.bits && j < i
      invariant forall j, k :: 0 <= j < k < |r| ==> r[j] < r[k]
    {
      if i in s.bits {
        assert forall j :: 0 <= j < |r| ==> r[j] in r;
        r := r + [i];
      }
    }
  }

  method Complement(s: Schema) returns (r: Schema)
    ensures r == Schema(Indices(s.size) - s.bits, s.size)
  {
    var bits: set<nat> := {};
    for i := 0 to s.size
      invariant bits == set j: nat | j < i && j !in s.bits
    {
      if i !in s.bits {
        bits := bits + {i};
      }
    }
    r := Schema(bits, s.size);
  }

  method ComplementIn(s: Schema, universe: Schema) returns (r: Result<Schema>)
    ensures r == if s.size == universe.size && s.bits <= universe.bits
                 then Ok(Schema(universe.bits - s.bits, s.size))
                 else Err
  {
    if s.size != universe.size {
      return Err;
    }
    var inside := IsSubsetOf(s, universe);
    if !inside.value {
      return Err;
    }
    var bits: set<nat> := {};
    for i := 0 to s.size
      invariant bits == set j | j in universe.bits && j < i && j !in s.bits
    {
      if i in universe.bits && i !in s.bits {
        bits := bits + {i};
      }
    }
    assert bits == universe.bits - s.bits;
    r := Ok(Schema(bits, s.size));
  }

  method OverlapsWith(a: Schema, b: Schema) returns (r: Result<bool>)
    ensures r == if a.size == b.size then Ok(a.bits * b.bits != {}) else Err
  {
    if a.size != b.size {
      return Err;
    }
    for i := 0 to a.size
      invariant forall j :: j in a.bits * b.bits ==> i <= j
    {
      if i in a.bits && i in b.bits {
        assert i in a.bits * b.bits;
        return Ok(true);
      }
    }
    assert a.bits * b.bits == {};
    r := Ok(false);
  }

  /** A schema whose bits are set and cleared in place. */
  class MutableSchema {
    const size: nat
    var bits: set<nat>

    ghost predicate Valid()
      reads this
    {
      forall i :: i in bits ==> i < size
    }

    constructor (size: nat)
      ensures Valid() && this.size == size && bits == {}
    {
      this.size := size;
      bits := {};
    }

    constructor From(s: Schema)
      ensures Valid() && View() == s
    {
      size := s.size;
      bits := s.bits;
    }

    function View(): (s: Schema)
      requires Valid()
      reads this
      ensures s == Schema(bits, size)
    {
      Schema(bits, size)
    }

    method Set(index: nat, value: bool)
      requires Valid() && index < size
      modifies this
      ensures Valid()
      ensures bits == if value then old(bits) + {index} else old(bits) - {index}
    {
      bits := if value then bits + {index} else bits - {index};
    }
  }
}
