/**
 * `[...new Set(data.map((animal) => animal.type))]`: the types of the fetched records, each
 * once, in the order a `Set` keeps them, which is the order of first insertion.
 */
module TypeMenu {
  import opened Animals

  ghost predicate NoDuplicates(s: seq<string>) {
    forall i, j :: 0 <= i < j < |s| ==> s[i] != s[j]
  }

  /** `data.map((animal) => animal.type)`. */
  function TypesOf(data: seq<Animal>): (types: seq<string>)
    ensures |types| == |data|
    ensures forall i :: 0 <= i < |data| ==> types[i] == data[i].kind
  {
    seq(|data|, i requires 0 <= i < |data| => data[i].kind)
  }

  /**
   * Spreading a `Set` built from `xs`: every value of `xs` once, a value being added only
   * the first time it is met.
   */
  function Dedup(xs: seq<string>): (r: seq<string>)
    ensures forall x :: x in r <==> x in xs
    ensures NoDuplicates(r)
  {
    if xs == [] then []
    else
      var d := Dedup(xs[..|xs| - 1]);
      var last := xs[|xs| - 1];
      if last in d then d else d + [last]
  }

  /** The position at which `x` first occurs in `xs`. */
  function FirstIndex(xs: seq<string>, x: string): (p: nat)
    requires x in xs
    ensures p < |xs| && xs[p] == x
    ensures forall k :: 0 <= k < p ==> xs[k] != x
  {
    if xs[0] == x then 0 else 1 + FirstIndex(xs[1..], x)
  }

  /** Appending to `xs` does not move the first occurrence of a value already in it. */
  lemma FirstIndexAppend(xs: seq<string>, y: string, x: string)
    requires x in xs
    ensures FirstIndex(xs + [y], x) == FirstIndex(xs, x)
  {
    var p := FirstIndex(xs, x);
    assert (xs + [y])[p] == x;
    assert forall k :: 0 <= k < p ==> (xs + [y])[k] == xs[k];
  }

  /** The distinct values come out in the order of their first occurrences in `xs`. */
  lemma {:induction false} DedupKeepsFirstOccurrenceOrder(xs: seq<string>)
    ensures forall i, j :: 0 <= i < j < |Dedup(xs)| ==>
      FirstIndex(xs, Dedup(xs)[i]) < FirstIndex(xs, Dedup(xs)[j])
  {
    if xs != [] {
      var xs' := xs[..|xs| - 1];
      var last := xs[|xs| - 1];
      assert xs == xs' + [last];
      var d := Dedup(xs');
      DedupKeepsFirstOccurrenceOrder(xs');
      var r := Dedup(xs);
      forall i, j | 0 <= i < j < |r| ensures FirstIndex(xs, r[i]) < FirstIndex(xs, r[j]) {
        FirstIndexAppend(xs', last, r[i]);
        if j < |d| {
          FirstIndexAppend(xs', last, r[j]);
        } else {
          assert r[j] == last && last !in xs';
        }
      }
    }
  }

  /** `animalTypes`: the distinct types of the fetched records. */
  function DistinctTypes(data: seq<Animal>): seq<string> {
    Dedup(TypesOf(data))
  }

  /**
   * The type menu lists every type some record has and no other, each once, in the order in
   * which the types first occur in the fetched list.
   */
  lemma DistinctTypesSpec(data: seq<Animal>)
    ensures forall t :: t in DistinctTypes(data) <==> exists a :: a in data && a.kind == t
    ensures NoDuplicates(DistinctTypes(data))
    ensures forall i, j :: 0 <= i < j < |DistinctTypes(data)| ==>
      FirstIndex(TypesOf(data), DistinctTypes(data)[i]) < FirstIndex(TypesOf(data), DistinctTypes(data)[j])
  {
    var types := TypesOf(data);
    DedupKeepsFirstOccurrenceOrder(types);
    forall t ensures t in types <==> exists a :: a in data && a.kind == t {
      if t in types {
        var i :| 0 <= i < |types| && types[i] == t;
        assert data[i] in data;
      }
      if exists a :: a in data && a.kind == t {
        var a :| a in data && a.kind == t;
        var i :| 0 <= i < |data| && data[i] == a;
        assert types[i] == t;
      }
    }
  }
}
