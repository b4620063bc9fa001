// Stores keyed by two IDs joined with a colon
// (pkg/clients/adapter_group_assignment_store.go,
// pkg/clients/user_adapter_token_store.go), seen as maps on pairs of IDs.
module PairStores {
  import opened Common
  import opened FileStore
  import Text

  // generateAssignmentID, and makeKey of the token store.
  function PairKey(first: string, second: string): string {
    first + ":" + second
  }

  // ---- When keys tell pairs apart ---------------------------------------

  lemma {:induction false} InjectiveByFirst(a: string, b: string, x: string, y: string)
    requires ':' !in a && ':' !in b && PairKey(a, x) == PairKey(b, y)
    ensures a == b && x == y
  {
    Text.CutAtFirst(a, b, x, y, ':');
  }

  lemma {:induction false} InjectiveBySecond(a: string, b: string, x: string, y: string)
    requires ':' !in x && ':' !in y && PairKey(a, x) == PairKey(b, y)
    ensures a == b && x == y
  {
    Text.CutAtLast(a, b, x, y, ':');
  }

  // A pair has its key to itself exactly when neither part holds a colon.
  lemma {:induction false} UniqueKeyIff(a: string, x: string)
    ensures (forall b, y :: PairKey(b, y) == PairKey(a, x) ==> b == a && y == x) <==> ':' !in a && ':' !in x
  {
    if ':' !in a && ':' !in x {
      forall b, y | PairKey(b, y) == PairKey(a, x)
        ensures b == a && y == x
      {
        OneColon(a, x, b, y);
        InjectiveByFirst(a, b, x, y);
      }
    } else if ':' in a {
      var i :| 0 <= i < |a| && a[i] == ':';
      assert PairKey(a[..i], a[i + 1..] + ":" + x) == PairKey(a, x) by {
        assert a == a[..i] + ":" + a[i + 1..];
      }
      assert a[..i] != a;
    } else {
      var i :| 0 <= i < |x| && x[i] == ':';
      assert PairKey(a + ":" + x[..i], x[i + 1..]) == PairKey(a, x) by {
        assert x == x[..i] + ":" + x[i + 1..];
      }
      assert x[i + 1..] != x;
    }
  }

  // A key with a single colon has it between its parts.
  lemma {:induction false} OneColon(a: string, x: string, b: string, y: string)
    requires ':' !in a && ':' !in x && PairKey(b, y) == PairKey(a, x)
    ensures ':' !in b && ':' !in y
  {
    forall p: string, q: string
      ensures Text.Count(PairKey(p, q), ':') == Text.Count(p, ':') + 1 + Text.Count(q, ':')
    {
      Text.CountConcat(p + ":", q, ':');
      Text.CountConcat(p, ":", ':');
    }
    Text.CountAbsent(a, ':');
    Text.CountAbsent(x, ':');
    Text.CountAbsent(b, ':');
    Text.CountAbsent(y, ':');
  }

  // ---- The map on pairs -------------------------------------------------

  datatype Pair = Pair(first: string, second: string) {
    function Key(): string {
      PairKey(first, second)
    }
  }

  datatype PairChange<V> = Add(record: V) | Replace(record: V) | Drop(pair: Pair)

  function PairOf<V>(pairOf: V -> Pair, c: PairChange<V>): Pair {
    if c.Drop? then c.pair else pairOf(c.record)
  }

  // What creating, updating and deleting mean for a pair.
  function ApplyToPairs<V>(pairOf: V -> Pair, pairs: map<Pair, V>, c: PairChange<V>): (map<Pair, V>, Outcome) {
    match c
    case Add(v) => if pairOf(v) in pairs then (pairs, Exists) else (pairs[pairOf(v) := v], Done)
    case Replace(v) => if pairOf(v) in pairs then (pairs[pairOf(v) := v], Done) else (pairs, NotFound)
    case Drop(p) => if p in pairs then (pairs - {p}, Done) else (pairs, NotFound)
  }

  // The change of the store, which knows keys only.
  function Keyed<V>(c: PairChange<V>): Change<V> {
    match c
    case Add(v) => Create(v)
    case Replace(v) => Update(v)
    case Drop(p) => Delete(p.Key())
  }

  function StoreAfter<V>(m: Medium<V>, records: map<string, V>, cs: seq<PairChange<V>>): map<string, V> {
    if cs == [] then records else Apply(m, StoreAfter(m, records, cs[..|cs| - 1]), Keyed(cs[|cs| - 1])).0
  }

  function PairsAfter<V>(pairOf: V -> Pair, pairs: map<Pair, V>, cs: seq<PairChange<V>>): map<Pair, V> {
    if cs == [] then pairs else ApplyToPairs(pairOf, PairsAfter(pairOf, pairs, cs[..|cs| - 1]), cs[|cs| - 1]).0
  }

  function Find<V>(records: map<string, V>, p: Pair): Option<V> {
    if p.Key() in records then Some(records[p.Key()]) else None
  }

  function FindPair<V>(pairs: map<Pair, V>, p: Pair): Option<V> {
    if p in pairs then Some(pairs[p]) else None
  }

  ghost predicate IsPairMedium<V(!new)>(m: Medium<V>, pairOf: V -> Pair) {
    forall v :: m.id(v) == pairOf(v).Key()
  }

  // The store holds the records of the map on pairs, each under its pair's
  // key, and no others.
  ghost predicate Represents<V>(pairOf: V -> Pair, records: map<string, V>, pairs: map<Pair, V>) {
    && (forall p :: p in pairs ==> pairOf(pairs[p]) == p && p.Key() in records && records[p.Key()] == pairs[p])
    && (forall k :: k in records ==> pairOf(records[k]) in pairs && pairOf(records[k]).Key() == k)
  }

  // No two pairs of the world have one key.
  ghost predicate Apart(world: iset<Pair>) {
    forall p, q :: p in world && q in world && p.Key() == q.Key() ==> p == q
  }

  ghost predicate Within<V>(pairOf: V -> Pair, cs: seq<PairChange<V>>, world: iset<Pair>) {
    forall i :: 0 <= i < |cs| ==> PairOf(pairOf, cs[i]) in world
  }

  // ---- Each store is that map -------------------------------------------

  ghost predicate Inside<V>(pairs: map<Pair, V>, world: iset<Pair>) {
    forall p :: p in pairs ==> p in world
  }

  lemma {:induction false} FindsAlike<V>(
    pairOf: V -> Pair, world: iset<Pair>, records: map<string, V>, pairs: map<Pair, V>, p: Pair)
    requires Apart(world) && Represents(pairOf, records, pairs) && Inside(pairs, world) && p in world
    ensures Find(records, p) == FindPair(pairs, p)
  {
    if p.Key() in records {
      assert pairOf(records[p.Key()]) == p;
    }
  }

  lemma {:induction false} PutRepresents<V>(
    pairOf: V -> Pair, world: iset<Pair>, records: map<string, V>, pairs: map<Pair, V>, v: V)
    requires Apart(world) && Represents(pairOf, records, pairs) && Inside(pairs, world) && pairOf(v) in world
    ensures Represents(pairOf, records[pairOf(v).Key() := v], pairs[pairOf(v) := v])
  {
    var p := pairOf(v);
    var now, known := records[p.Key() := v], pairs[p := v];
    forall q | q in known
      ensures pairOf(known[q]) == q && q.Key() in now && now[q.Key()] == known[q]
    {
      assert q.Key() == p.Key() ==> q == p;
    }
  }

  lemma {:induction false} DropRepresents<V>(
    pairOf: V -> Pair, world: iset<Pair>, records: map<string, V>, pairs: map<Pair, V>, p: Pair)
    requires Apart(world) && Represents(pairOf, records, pairs) && Inside(pairs, world) && p in world
    ensures Represents(pairOf, records - {p.Key()}, pairs - {p})
  {
    var now, known := records - {p.Key()}, pairs - {p};
    forall q | q in known
      ensures pairOf(known[q]) == q && q.Key() in now && now[q.Key()] == known[q]
    {
      assert q.Key() == p.Key() ==> q == p;
    }
  }

  lemma {:induction false} ChangeRepresents<V(!new)>(
    m: Medium<V>, pairOf: V -> Pair, world: iset<Pair>, records: map<string, V>, pairs: map<Pair, V>, c: PairChange<V>)
    requires IsPairMedium(m, pairOf) && Apart(world)
    requires Represents(pairOf, records, pairs) && Inside(pairs, world) && PairOf(pairOf, c) in world
    ensures Represents(pairOf, Apply(m, records, Keyed(c)).0, ApplyToPairs(pairOf, pairs, c).0)
    ensures Apply(m, records, Keyed(c)).1 == ApplyToPairs(pairOf, pairs, c).1
    ensures Inside(ApplyToPairs(pairOf, pairs, c).0, world)
  {
    FindsAlike(pairOf, world, records, pairs, PairOf(pairOf, c));
    match c
    case Add(v) => PutRepresents(pairOf, world, records, pairs, v);
    case Replace(v) => PutRepresents(pairOf, world, records, pairs, v);
    case Drop(p) => DropRepresents(pairOf, world, records, pairs, p);
  }

  lemma {:induction false} SeriesRepresents<V(!new)>(
    m: Medium<V>, pairOf: V -> Pair, world: iset<Pair>, records: map<string, V>, pairs: map<Pair, V>, cs: seq<PairChange<V>>)
    requires IsPairMedium(m, pairOf) && Apart(world) && Within(pairOf, cs, world)
    requires Represents(pairOf, records, pairs) && Inside(pairs, world)
    ensures Represents(pairOf, StoreAfter(m, records, cs), PairsAfter(pairOf, pairs, cs))
    ensures Inside(PairsAfter(pairOf, pairs, cs), world)
  {
    if cs != [] {
      var n := |cs| - 1;
      SeriesRepresents(m, pairOf, world, records, pairs, cs[..n]);
      ChangeRepresents(m, pairOf, world, StoreAfter(m, records, cs[..n]), PairsAfter(pairOf, pairs, cs[..n]), cs[n]);
    }
  }

  // Over any series of changes to pairs of a world without clashing keys the
  // store equals the map on pairs: it holds the same records, and gives the
  // same answers to the next change and to every look-up.
  lemma {:induction false} StoreIsMapOnPairs<V(!new)>(
    m: Medium<V>, pairOf: V -> Pair, world: iset<Pair>, records: map<string, V>, pairs: map<Pair, V>, cs: seq<PairChange<V>>,
    c: PairChange<V>, p: Pair)
    requires IsPairMedium(m, pairOf) && Apart(world) && Within(pairOf, cs, world)
    requires Represents(pairOf, records, pairs) && Inside(pairs, world)
    ensures Represents(pairOf, StoreAfter(m, records, cs), PairsAfter(pairOf, pairs, cs))
    ensures PairOf(pairOf, c) in world ==>
              Apply(m, StoreAfter(m, records, cs), Keyed(c)).1 == ApplyToPairs(pairOf, PairsAfter(pairOf, pairs, cs), c).1
    ensures p in world ==> Find(StoreAfter(m, records, cs), p) == FindPair(PairsAfter(pairOf, pairs, cs), p)
  {
    SeriesRepresents(m, pairOf, world, records, pairs, cs);
    var now, known := StoreAfter(m, records, cs), PairsAfter(pairOf, pairs, cs);
    if PairOf(pairOf, c) in world {
      ChangeRepresents(m, pairOf, world, now, known, c);
    }
    if p in world {
      FindsAlike(pairOf, world, now, known, p);
    }
  }

  ghost predicate AnswersAlike<V>(m: Medium<V>, pairOf: V -> Pair, cs: seq<PairChange<V>>, c: PairChange<V>) {
    Apply(m, StoreAfter(m, map[], cs), Keyed(c)).1 == ApplyToPairs(pairOf, PairsAfter(pairOf, map[], cs), c).1
  }

  // A store answers as the map on pairs in every series of changes to pairs
  // of a world exactly when no two of them have one key.
  lemma {:induction false} StoreIsMapOnPairsIff<V(!new)>(
    m: Medium<V>, pairOf: V -> Pair, world: iset<Pair>, sample: Pair -> V)
    requires IsPairMedium(m, pairOf) && forall p :: pairOf(sample(p)) == p
    ensures (forall cs, c :: Within(pairOf, cs, world) && PairOf(pairOf, c) in world ==> AnswersAlike(m, pairOf, cs, c)) <==> Apart(world)
  {
    if Apart(world) {
      forall cs, c | Within(pairOf, cs, world) && PairOf(pairOf, c) in world
        ensures AnswersAlike(m, pairOf, cs, c)
      {
        StoreIsMapOnPairs(m, pairOf, world, map[], map[], cs, c, PairOf(pairOf, c));
      }
    } else {
      var p, q :| p in world && q in world && p.Key() == q.Key() && p != q;
      var first, second := Add(sample(p)), Add(sample(q));
      assert Within(pairOf, [first], world) && PairOf(pairOf, second) in world;
      SecondAddAnswers(m, pairOf, first, second);
      assert !AnswersAlike(m, pairOf, [first], second);
    }
  }

  lemma {:induction false} SecondAddAnswers<V(!new)>(m: Medium<V>, pairOf: V -> Pair, first: PairChange<V>, second: PairChange<V>)
    requires IsPairMedium(m, pairOf) && first.Add? && second.Add?
    requires pairOf(first.record).Key() == pairOf(second.record).Key() && pairOf(first.record) != pairOf(second.record)
    ensures !AnswersAlike(m, pairOf, [first], second)
  {
    assert [first][..0] == [];
    assert StoreAfter(m, map[], [first]) == map[m.id(first.record) := first.record];
    assert PairsAfter(pairOf, map[], [first]) == map[pairOf(first.record) := first.record];
  }

  // Pairs whose adapter ID, on either side, holds no colon.
  lemma {:induction false} ColonFreeApart()
    ensures Apart(iset p: Pair | ':' !in p.first)
    ensures Apart(iset p: Pair | ':' !in p.second)
  {
    forall p: Pair, q: Pair | p.Key() == q.Key() && ':' !in p.first && ':' !in q.first
      ensures p == q
    {
      InjectiveByFirst(p.first, q.first, p.second, q.second);
    }
    forall p: Pair, q: Pair | p.Key() == q.Key() && ':' !in p.second && ':' !in q.second
      ensures p == q
    {
      InjectiveBySecond(p.first, q.first, p.second, q.second);
    }
  }
}
