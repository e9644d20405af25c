/** Canonical JSON: recursive key sorting, and the leaf hashes that rest on it. */
module CanonicalJson {
  import opened Wrappers
  import J = Json

  /** JSON values as JavaScript holds them: object entries have an order. */
  datatype Value =
    | Null | Bool(b: bool) | Num(n: real) | Str(s: string) | Arr(items: seq<Value>) | Obj(entries: seq<Entry>)
  datatype Entry = Entry(key: string, value: Value)

  type KeyOrder = (string, string) -> bool

  /** What a comparison must satisfy to sort by: like `localeCompare`, it may tie different keys. */
  ghost predicate TotalPreorder(le: KeyOrder) {
    && (forall a, b {:trigger le(a, b)} :: le(a, b) || le(b, a))
    && (forall a, b, c {:trigger le(a, b), le(b, c)} :: le(a, b) && le(b, c) ==> le(a, c))
  }

  /** A comparison without ties. */
  ghost predicate TotalOrder(le: KeyOrder) {
    TotalPreorder(le) && forall a, b {:trigger le(a, b), le(b, a)} :: le(a, b) && le(b, a) ==> a == b
  }

  predicate DistinctKeys(es: seq<Entry>) {
    forall i, j | 0 <= i < j < |es| :: es[i].key != es[j].key
  }

  /** No object, at any depth, has a key twice: what JavaScript objects always satisfy. */
  predicate WellFormed(v: Value) {
    match v
    case Arr(items) => forall i | 0 <= i < |items| :: WellFormed(items[i])
    case Obj(es) => DistinctKeys(es) && forall i | 0 <= i < |es| :: WellFormed(es[i].value)
    case _ => true
  }

  // ----- What a value means, whatever the order of its keys

  function Meaning(v: Value): J.Json
    decreases v, 0
  {
    match v
    case Null => J.Null
    case Bool(b) => J.Bool(b)
    case Num(n) => J.Num(n)
    case Str(s) => J.Str(s)
    case Arr(items) => J.Arr(Meanings(items))
    case Obj(es) => J.Obj(Fields(es))
  }

  function Meanings(items: seq<Value>): (r: seq<J.Json>)
    ensures |r| == |items| && forall i | 0 <= i < |items| :: r[i] == Meaning(items[i])
    decreases items, 1
  {
    if items == [] then [] else [Meaning(items[0])] + Meanings(items[1..])
  }

  function Fields(es: seq<Entry>): (r: map<string, J.Json>)
    ensures forall k :: k in r <==> HasKey(es, k)
    decreases es, 1
  {
    if es == [] then map[] else Fields(es[1..])[es[0].key := Meaning(es[0].value)]
  }

  predicate HasKey(es: seq<Entry>, key: string) {
    es != [] && (es[0].key == key || HasKey(es[1..], key))
  }

  // ----- Sorting

  function Insert(e: Entry, es: seq<Entry>, le: KeyOrder): seq<Entry> {
    if es == [] || le(e.key, es[0].key) then [e] + es else [es[0]] + Insert(e, es[1..], le)
  }

  function SortEntries(es: seq<Entry>, le: KeyOrder): seq<Entry> {
    if es == [] then [] else Insert(es[0], SortEntries(es[1..], le), le)
  }

  /** `sortJson`. */
  function Sort(v: Value, le: KeyOrder): Value
    decreases v, 0
  {
    match v
    case Arr(items) => Arr(SortItems(items, le))
    case Obj(es) => Obj(SortEntries(SortNested(es, le), le))
    case _ => v
  }

  function SortItems(items: seq<Value>, le: KeyOrder): (r: seq<Value>)
    ensures |r| == |items| && forall i | 0 <= i < |items| :: r[i] == Sort(items[i], le)
    decreases items, 1
  {
    if items == [] then [] else [Sort(items[0], le)] + SortItems(items[1..], le)
  }

  function SortNested(es: seq<Entry>, le: KeyOrder): (r: seq<Entry>)
    ensures |r| == |es| && forall i | 0 <= i < |es| :: r[i] == Entry(es[i].key, Sort(es[i].value, le))
    decreases es, 1
  {
    if es == [] then [] else [Entry(es[0].key, Sort(es[0].value, le))] + SortNested(es[1..], le)
  }

  // ----- Sorting keeps the meaning

  lemma {:induction false} HasKeyAt(es: seq<Entry>, i: nat)
    requires i < |es|
    ensures HasKey(es, es[i].key)
  {
    if i == 0 {
    } else {
      HasKeyAt(es[1..], i - 1);
    }
  }

  lemma {:induction false} KeyPosition(es: seq<Entry>, key: string) returns (i: nat)
    requires HasKey(es, key)
    ensures i < |es| && es[i].key == key
  {
    if es[0].key == key {
      i := 0;
    } else {
      i := KeyPosition(es[1..], key);
      i := i + 1;
    }
  }

  lemma NoLaterKey(es: seq<Entry>)
    requires es != [] && DistinctKeys(es)
    ensures !HasKey(es[1..], es[0].key) && DistinctKeys(es[1..])
  {
    AbsentKey(es[1..], es[0].key);
  }

  lemma {:induction false} AbsentKey(es: seq<Entry>, key: string)
    requires forall i | 0 <= i < |es| :: es[i].key != key
    ensures !HasKey(es, key)
  {
    if es == [] {
    } else {
      AbsentKey(es[1..], key);
    }
  }

  lemma {:induction false} InsertFields(e: Entry, es: seq<Entry>, le: KeyOrder)
    requires !HasKey(es, e.key) && DistinctKeys(es)
    ensures Fields(Insert(e, es, le)) == Fields(es)[e.key := Meaning(e.value)]
    ensures DistinctKeys(Insert(e, es, le))
    ensures forall k :: HasKey(Insert(e, es, le), k) <==> k == e.key || HasKey(es, k)
  {
    if es == [] || le(e.key, es[0].key) {
      assert ([e] + es)[1..] == es;
      forall i | 0 <= i < |es|
        ensures es[i].key != e.key
      {
        HasKeyAt(es, i);
      }
    } else {
      NoLaterKey(es);
      InsertFields(e, es[1..], le);
      var rest := Insert(e, es[1..], le);
      assert ([es[0]] + rest)[1..] == rest;
      forall i | 0 <= i < |rest|
        ensures rest[i].key != es[0].key
      {
        HasKeyAt(rest, i);
      }
    }
  }

  lemma {:induction false} SortEntriesFields(es: seq<Entry>, le: KeyOrder)
    requires DistinctKeys(es)
    ensures Fields(SortEntries(es, le)) == Fields(es) && DistinctKeys(SortEntries(es, le))
    ensures forall k :: HasKey(SortEntries(es, le), k) <==> HasKey(es, k)
  {
    if es == [] {
    } else {
      NoLaterKey(es);
      SortEntriesFields(es[1..], le);
      InsertFields(es[0], SortEntries(es[1..], le), le);
    }
  }

  /** Recursive key sorting preserves the value. */
  lemma {:induction false} SortKeepsMeaning(v: Value, le: KeyOrder)
    requires WellFormed(v)
    ensures Meaning(Sort(v, le)) == Meaning(v)
    decreases v, 0
  {
    match v {
      case Arr(items) =>
        forall i | 0 <= i < |items|
          ensures Meaning(Sort(items[i], le)) == Meaning(items[i])
        {
          SortKeepsMeaning(items[i], le);
        }
        assert Meanings(SortItems(items, le)) == Meanings(items);
      case Obj(es) =>
        NestedKeepsFields(es, le);
        assert DistinctKeys(SortNested(es, le));
        SortEntriesFields(SortNested(es, le), le);
      case _ =>
    }
  }

  lemma {:induction false} NestedKeepsFields(es: seq<Entry>, le: KeyOrder)
    requires forall i | 0 <= i < |es| :: WellFormed(es[i].value)
    ensures Fields(SortNested(es, le)) == Fields(es)
    decreases es, 1
  {
    if es == [] {
    } else {
      SortKeepsMeaning(es[0].value, le);
      NestedKeepsFields(es[1..], le);
      assert SortNested(es, le)[1..] == SortNested(es[1..], le);
    }
  }

  // ----- The sorted form is determined by the meaning, unless keys tie

  predicate SortedKeys(es: seq<Entry>, le: KeyOrder) {
    forall i, j | 0 <= i < j < |es| :: le(es[i].key, es[j].key)
  }

  lemma {:induction false} InsertSorted(e: Entry, es: seq<Entry>, le: KeyOrder)
    requires TotalPreorder(le) && SortedKeys(es, le)
    ensures SortedKeys(Insert(e, es, le), le)
    ensures forall x | x in Insert(e, es, le) :: x == e || x in es
  {
    if es == [] {
    } else if le(e.key, es[0].key) {
      forall i | 0 <= i < |es|
        ensures le(e.key, es[i].key)
      {
        assert i > 0 ==> le(es[0].key, es[i].key);
      }
    } else {
      InsertSorted(e, es[1..], le);
      var rest := Insert(e, es[1..], le);
      assert le(es[0].key, e.key);
      forall i | 0 <= i < |rest|
        ensures le(es[0].key, rest[i].key)
      {
        assert rest[i] in rest;
        if rest[i] != e {
          var j :| 0 <= j < |es[1..]| && es[1..][j] == rest[i];
          assert le(es[0].key, es[j + 1].key);
        }
      }
    }
  }

  lemma {:induction false} SortEntriesSorted(es: seq<Entry>, le: KeyOrder)
    requires TotalPreorder(le)
    ensures SortedKeys(SortEntries(es, le), le)
  {
    if es == [] {
    } else {
      SortEntriesSorted(es[1..], le);
      InsertSorted(es[0], SortEntries(es[1..], le), le);
    }
  }

  predicate AllValues(es: seq<Entry>, good: Value -> bool) {
    forall i | 0 <= i < |es| :: good(es[i].value)
  }

  lemma {:induction false} InsertKeepsValues(e: Entry, es: seq<Entry>, le: KeyOrder, good: Value -> bool)
    requires good(e.value) && AllValues(es, good)
    ensures AllValues(Insert(e, es, le), good)
  {
    if es == [] || le(e.key, es[0].key) {
    } else {
      InsertKeepsValues(e, es[1..], le, good);
    }
  }

  /** Sorting entries moves values about but makes up none. */
  lemma {:induction false} SortKeepsValues(es: seq<Entry>, le: KeyOrder, good: Value -> bool)
    requires AllValues(es, good)
    ensures AllValues(SortEntries(es, le), good)
  {
    if es == [] {
    } else {
      SortKeepsValues(es[1..], le, good);
      InsertKeepsValues(es[0], SortEntries(es[1..], le), le, good);
    }
  }

  lemma {:induction false} SortedIsFixed(es: seq<Entry>, le: KeyOrder)
    requires SortedKeys(es, le)
    ensures SortEntries(es, le) == es
  {
    if es == [] {
    } else {
      SortedIsFixed(es[1..], le);
      assert es == [es[0]] + es[1..];
      assert |es| > 1 ==> le(es[0].key, es[1].key);
    }
  }

  /** Sorting twice is sorting once, whatever the value and however keys tie. */
  lemma {:induction false} SortIdempotent(v: Value, le: KeyOrder)
    requires TotalPreorder(le)
    ensures Sort(Sort(v, le), le) == Sort(v, le)
    decreases v
  {
    match v {
      case Arr(items) =>
        forall i | 0 <= i < |items|
          ensures Sort(Sort(items[i], le), le) == Sort(items[i], le)
        {
          SortIdempotent(items[i], le);
        }
        assert SortItems(SortItems(items, le), le) == SortItems(items, le);
      case Obj(es) =>
        forall i | 0 <= i < |es|
          ensures Sort(Sort(es[i].value, le), le) == Sort(es[i].value, le)
        {
          SortIdempotent(es[i].value, le);
        }
        var nested := SortNested(es, le);
        var sorted := SortEntries(nested, le);
        SortKeepsValues(nested, le, w => Sort(w, le) == w);
        assert SortNested(sorted, le) == sorted;
        SortEntriesSorted(nested, le);
        SortedIsFixed(sorted, le);
      case _ =>
    }
  }

  /** Sorted at every depth. */
  predicate Canonical(v: Value, le: KeyOrder) {
    match v
    case Arr(items) => forall i | 0 <= i < |items| :: Canonical(items[i], le)
    case Obj(es) => SortedKeys(es, le) && forall i | 0 <= i < |es| :: Canonical(es[i].value, le)
    case _ => true
  }

  predicate Tied(a: string, b: string, le: KeyOrder) {
    le(a, b) && le(b, a)
  }

  predicate NoTiedKeys(es: seq<Entry>, le: KeyOrder) {
    forall i, j | 0 <= i < |es| && 0 <= j < |es| && es[i].key != es[j].key :: !Tied(es[i].key, es[j].key, le)
  }

  /** No object, at any depth, has two different keys the comparison cannot tell apart. */
  predicate NoTies(v: Value, le: KeyOrder) {
    match v
    case Arr(items) => forall i | 0 <= i < |items| :: NoTies(items[i], le)
    case Obj(es) => NoTiedKeys(es, le) && forall i | 0 <= i < |es| :: NoTies(es[i].value, le)
    case _ => true
  }

  lemma TiesAreEqual(es: seq<Entry>, a: string, b: string, le: KeyOrder)
    requires NoTiedKeys(es, le) && HasKey(es, a) && HasKey(es, b) && Tied(a, b, le)
    ensures a == b
  {
    var i := KeyPosition(es, a);
    var j := KeyPosition(es, b);
  }

  lemma SortKeepsNoTiedKeys(es: seq<Entry>, le: KeyOrder)
    requires DistinctKeys(es) && NoTiedKeys(es, le)
    ensures NoTiedKeys(SortEntries(es, le), le)
  {
    var sorted := SortEntries(es, le);
    SortEntriesFields(es, le);
    forall i, j | 0 <= i < |sorted| && 0 <= j < |sorted| && sorted[i].key != sorted[j].key
      ensures !Tied(sorted[i].key, sorted[j].key, le)
    {
      HasKeyAt(sorted, i);
      HasKeyAt(sorted, j);
      if Tied(sorted[i].key, sorted[j].key, le) {
        TiesAreEqual(es, sorted[i].key, sorted[j].key, le);
      }
    }
  }

  /** Two canonical values with one meaning are the same value. */
  lemma {:induction false} CanonicalUnique(v: Value, w: Value, le: KeyOrder)
    requires TotalPreorder(le) && NoTies(v, le)
    requires WellFormed(v) && WellFormed(w) && Canonical(v, le) && Canonical(w, le)
    requires Meaning(v) == Meaning(w)
    ensures v == w
    decreases v, 0
  {
    match v {
      case Arr(items) =>
        assert |Meanings(items)| == |Meanings(w.items)|;
        forall i | 0 <= i < |items|
          ensures items[i] == w.items[i]
        {
          assert Meanings(items)[i] == Meanings(w.items)[i];
          CanonicalUnique(items[i], w.items[i], le);
        }
      case Obj(es) => EntriesUnique(es, w.entries, le);
      case _ =>
    }
  }

  lemma LeastKey(es: seq<Entry>, le: KeyOrder, key: string)
    requires TotalPreorder(le) && es != [] && SortedKeys(es, le) && HasKey(es, key)
    ensures le(es[0].key, key)
  {
    var i := KeyPosition(es, key);
    assert le(key, key);
  }

  lemma {:induction false} EntriesUnique(es: seq<Entry>, fs: seq<Entry>, le: KeyOrder)
    requires TotalPreorder(le) && SortedKeys(es, le) && SortedKeys(fs, le) && DistinctKeys(es) && DistinctKeys(fs)
    requires NoTiedKeys(es, le)
    requires forall i | 0 <= i < |es| ::
               WellFormed(es[i].value) && Canonical(es[i].value, le) && NoTies(es[i].value, le)
    requires forall i | 0 <= i < |fs| :: WellFormed(fs[i].value) && Canonical(fs[i].value, le)
    requires Fields(es) == Fields(fs)
    ensures es == fs
    decreases es, 1
  {
    if es == [] {
      FieldsEmpty(es);
      FieldsEmpty(fs);
    } else {
      assert es[0].key in Fields(es);
      FieldsEmpty(fs);
      assert fs[0].key in Fields(fs);
      LeastKey(es, le, fs[0].key);
      LeastKey(fs, le, es[0].key);
      TiesAreEqual(es, es[0].key, fs[0].key, le);
      assert Fields(es)[es[0].key] == Meaning(es[0].value) && Fields(fs)[fs[0].key] == Meaning(fs[0].value);
      CanonicalUnique(es[0].value, fs[0].value, le);
      TailFields(es);
      TailFields(fs);
      EntriesUnique(es[1..], fs[1..], le);
    }
  }

  lemma FieldsEmpty(es: seq<Entry>)
    ensures Fields(es) == map[] <==> es == []
  {
    if es != [] {
      assert es[0].key in Fields(es);
    }
  }

  lemma TailFields(es: seq<Entry>)
    requires es != [] && DistinctKeys(es)
    ensures Fields(es[1..]) == Fields(es) - {es[0].key} && DistinctKeys(es[1..])
  {
    NoLaterKey(es);
  }

  predicate GoodValue(v: Value, le: KeyOrder) {
    WellFormed(v) && Canonical(v, le)
  }

  lemma CanonicalObject(es: seq<Entry>, le: KeyOrder)
    requires AllValues(es, v => GoodValue(v, le)) && DistinctKeys(es) && SortedKeys(es, le)
    ensures GoodValue(Obj(es), le)
  {
    forall i | 0 <= i < |es|
      ensures WellFormed(es[i].value) && Canonical(es[i].value, le)
    {
      assert GoodValue(es[i].value, le);
    }
  }

  /** Sorting gives a canonical value. */
  lemma {:induction false} SortIsCanonical(v: Value, le: KeyOrder)
    requires TotalPreorder(le) && WellFormed(v)
    ensures WellFormed(Sort(v, le)) && Canonical(Sort(v, le), le)
    decreases v
  {
    match v {
      case Arr(items) =>
        forall i | 0 <= i < |items|
          ensures WellFormed(Sort(items[i], le)) && Canonical(Sort(items[i], le), le)
        {
          SortIsCanonical(items[i], le);
        }
      case Obj(es) =>
        forall i | 0 <= i < |es|
          ensures GoodValue(Sort(es[i].value, le), le)
        {
          SortIsCanonical(es[i].value, le);
        }
        var nested := SortNested(es, le);
        assert DistinctKeys(nested);
        SortEntriesFields(nested, le);
        SortEntriesSorted(nested, le);
        SortKeepsValues(nested, le, w => GoodValue(w, le));
        CanonicalObject(SortEntries(nested, le), le);
      case _ =>
    }
  }

  /** Sorting makes no ties. */
  lemma {:induction false} SortKeepsNoTies(v: Value, le: KeyOrder)
    requires WellFormed(v) && NoTies(v, le)
    ensures NoTies(Sort(v, le), le)
    decreases v
  {
    match v {
      case Arr(items) =>
        forall i | 0 <= i < |items|
          ensures NoTies(Sort(items[i], le), le)
        {
          SortKeepsNoTies(items[i], le);
        }
      case Obj(es) =>
        forall i | 0 <= i < |es|
          ensures NoTies(Sort(es[i].value, le), le)
        {
          SortKeepsNoTies(es[i].value, le);
        }
        var nested := SortNested(es, le);
        assert DistinctKeys(nested) && NoTiedKeys(nested, le);
        SortKeepsNoTiedKeys(nested, le);
        SortKeepsValues(nested, le, w => NoTies(w, le));
      case _ =>
    }
  }

  /** Without ties, two values sort alike exactly when they are equal up to key order at every depth. */
  lemma SortDecidesMeaning(v: Value, w: Value, le: KeyOrder)
    requires TotalPreorder(le) && WellFormed(v) && WellFormed(w) && NoTies(v, le)
    ensures Sort(v, le) == Sort(w, le) <==> Meaning(v) == Meaning(w)
  {
    SortKeepsMeaning(v, le);
    SortKeepsMeaning(w, le);
    if Meaning(v) == Meaning(w) {
      SortIsCanonical(v, le);
      SortIsCanonical(w, le);
      SortKeepsNoTies(v, le);
      CanonicalUnique(Sort(v, le), Sort(w, le), le);
    }
  }

  // ----- Tied keys keep the order they came in

  /** The value with the entries of every object, at every depth, in reverse. */
  function Flip(v: Value): Value
    decreases v, 0
  {
    match v
    case Arr(items) => Arr(FlipItems(items))
    case Obj(es) => Obj(FlipEntries(es))
    case _ => v
  }

  function FlipItems(items: seq<Value>): (r: seq<Value>)
    ensures |r| == |items| && forall i | 0 <= i < |items| :: r[i] == Flip(items[i])
    decreases items, 1
  {
    if items == [] then [] else [Flip(items[0])] + FlipItems(items[1..])
  }

  function FlipEntries(es: seq<Entry>): (r: seq<Entry>)
    ensures |r| == |es|
    decreases es, 1
  {
    if es == [] then [] else FlipEntries(es[1..]) + [Entry(es[0].key, Flip(es[0].value))]
  }

  lemma {:induction false} FieldsAppend(es: seq<Entry>, e: Entry)
    requires !HasKey(es, e.key)
    ensures Fields(es + [e]) == Fields(es)[e.key := Meaning(e.value)]
  {
    if es == [] {
      assert es + [e] == [e];
    } else {
      FieldsAppend(es[1..], e);
      assert (es + [e])[1..] == es[1..] + [e];
    }
  }

  lemma {:induction false} FlippedAt(es: seq<Entry>, i: nat)
    requires i < |es|
    ensures FlipEntries(es)[|es| - 1 - i] == Entry(es[i].key, Flip(es[i].value))
  {
    if i == 0 {
    } else {
      FlippedAt(es[1..], i - 1);
    }
  }

  lemma FlipKeepsDistinct(es: seq<Entry>)
    requires DistinctKeys(es)
    ensures DistinctKeys(FlipEntries(es))
  {
    var flipped := FlipEntries(es);
    forall i, j | 0 <= i < j < |es|
      ensures flipped[i].key != flipped[j].key
    {
      FlippedAt(es, |es| - 1 - i);
      FlippedAt(es, |es| - 1 - j);
    }
  }

  lemma {:induction false} FlipKeepsFields(es: seq<Entry>)
    requires DistinctKeys(es) && forall i | 0 <= i < |es| :: WellFormed(es[i].value)
    ensures Fields(FlipEntries(es)) == Fields(es)
    decreases es, 1
  {
    if es == [] {
    } else {
      NoLaterKey(es);
      FlipKeepsMeaning(es[0].value);
      FlipKeepsFields(es[1..]);
      var e := Entry(es[0].key, Flip(es[0].value));
      assert HasKey(FlipEntries(es[1..]), e.key) <==> e.key in Fields(es[1..]);
      FieldsAppend(FlipEntries(es[1..]), e);
    }
  }

  lemma {:induction false} FlipKeepsMeaning(v: Value)
    requires WellFormed(v)
    ensures WellFormed(Flip(v)) && Meaning(Flip(v)) == Meaning(v)
    decreases v, 0
  {
    match v {
      case Arr(items) =>
        forall i | 0 <= i < |items|
          ensures WellFormed(Flip(items[i])) && Meaning(Flip(items[i])) == Meaning(items[i])
        {
          FlipKeepsMeaning(items[i]);
        }
        assert Meanings(FlipItems(items)) == Meanings(items);
      case Obj(es) =>
        FlipKeepsDistinct(es);
        FlipKeepsFields(es);
        forall j | 0 <= j < |es|
          ensures WellFormed(FlipEntries(es)[j].value)
        {
          FlippedAt(es, |es| - 1 - j);
          FlipKeepsMeaning(es[|es| - 1 - j].value);
        }
      case _ =>
    }
  }

  /** Key a stands somewhere before key b. */
  predicate Precedes(es: seq<Entry>, a: string, b: string) {
    es != [] && ((es[0].key == a && HasKey(es[1..], b)) || Precedes(es[1..], a, b))
  }

  lemma {:induction false} PrecedesAt(es: seq<Entry>, i: nat, j: nat)
    requires i < j < |es|
    ensures Precedes(es, es[i].key, es[j].key)
  {
    if i == 0 {
      HasKeyAt(es[1..], j - 1);
    } else {
      PrecedesAt(es[1..], i - 1, j - 1);
    }
  }

  lemma {:induction false} PrecedesHasKeys(es: seq<Entry>, a: string, b: string)
    requires Precedes(es, a, b)
    ensures HasKey(es, a) && HasKey(es, b)
  {
    if !(es[0].key == a && HasKey(es[1..], b)) {
      PrecedesHasKeys(es[1..], a, b);
    }
  }

  /** With distinct keys, two keys stand in one order only. */
  lemma {:induction false} PrecedesOneWay(es: seq<Entry>, a: string, b: string)
    requires DistinctKeys(es) && a != b && Precedes(es, a, b) && Precedes(es, b, a)
    ensures false
  {
    NoLaterKey(es);
    if Precedes(es[1..], a, b) {
      PrecedesHasKeys(es[1..], a, b);
    }
    if Precedes(es[1..], b, a) {
      PrecedesHasKeys(es[1..], b, a);
    }
    if Precedes(es[1..], a, b) && Precedes(es[1..], b, a) {
      PrecedesOneWay(es[1..], a, b);
    }
  }

  lemma {:induction false} InsertHasKey(e: Entry, es: seq<Entry>, le: KeyOrder, key: string)
    ensures HasKey(Insert(e, es, le), key) <==> key == e.key || HasKey(es, key)
  {
    if es == [] || le(e.key, es[0].key) {
      assert ([e] + es)[1..] == es;
    } else {
      var rest := Insert(e, es[1..], le);
      assert ([es[0]] + rest)[1..] == rest;
      InsertHasKey(e, es[1..], le, key);
    }
  }

  /** An inserted key goes before every key it may precede, and leaves the others in their order. */
  lemma {:induction false} InsertKeepsOrder(e: Entry, es: seq<Entry>, le: KeyOrder, a: string, b: string)
    requires Precedes(es, a, b) || (a == e.key && HasKey(es, b) && le(a, b))
    ensures Precedes(Insert(e, es, le), a, b)
  {
    if le(e.key, es[0].key) {
      assert ([e] + es)[1..] == es;
    } else {
      var rest := Insert(e, es[1..], le);
      assert ([es[0]] + rest)[1..] == rest;
      InsertHasKey(e, es[1..], le, b);
      if !(es[0].key == a && HasKey(es[1..], b)) {
        InsertKeepsOrder(e, es[1..], le, a, b);
      }
    }
  }

  lemma {:induction false} SortEntriesHasKey(es: seq<Entry>, le: KeyOrder, key: string)
    ensures HasKey(SortEntries(es, le), key) <==> HasKey(es, key)
  {
    if es == [] {
    } else {
      SortEntriesHasKey(es[1..], le, key);
      InsertHasKey(es[0], SortEntries(es[1..], le), le, key);
    }
  }

  /** Sorting is stable: keys already in order stay in order. */
  lemma {:induction false} SortIsStable(es: seq<Entry>, le: KeyOrder, a: string, b: string)
    requires Precedes(es, a, b) && le(a, b)
    ensures Precedes(SortEntries(es, le), a, b)
  {
    SortEntriesHasKey(es[1..], le, b);
    if Precedes(es[1..], a, b) {
      SortIsStable(es[1..], le, a, b);
    }
    InsertKeepsOrder(es[0], SortEntries(es[1..], le), le, a, b);
  }

  /** Two tied keys that swap places do so in the sorted entries too. */
  lemma TiedKeysDiffer(es: seq<Entry>, fs: seq<Entry>, a: string, b: string, le: KeyOrder)
    requires DistinctKeys(es) && Precedes(es, a, b) && Precedes(fs, b, a) && a != b && Tied(a, b, le)
    ensures SortEntries(es, le) != SortEntries(fs, le)
  {
    SortIsStable(es, le, a, b);
    SortIsStable(fs, le, b, a);
    SortEntriesFields(es, le);
    if SortEntries(es, le) == SortEntries(fs, le) {
      PrecedesOneWay(SortEntries(es, le), a, b);
    }
  }

  predicate SameKeys(es: seq<Entry>, fs: seq<Entry>) {
    |fs| == |es| && forall i | 0 <= i < |es| :: fs[i].key == es[i].key
  }

  lemma NestedKeys(es: seq<Entry>, le: KeyOrder)
    ensures SameKeys(es, SortNested(es, le))
  {
  }

  /** Two tied keys, found in the mirrored places of another list, sort into another order. */
  lemma MirroredTiesDiffer(es: seq<Entry>, fs: seq<Entry>, i: nat, j: nat, le: KeyOrder)
    requires DistinctKeys(es) && i < j < |es| == |fs| && Tied(es[i].key, es[j].key, le)
    requires fs[|es| - 1 - i].key == es[i].key && fs[|es| - 1 - j].key == es[j].key
    ensures SortEntries(es, le) != SortEntries(fs, le)
  {
    PrecedesAt(es, i, j);
    PrecedesAt(fs, |es| - 1 - j, |es| - 1 - i);
    TiedKeysDiffer(es, fs, es[i].key, es[j].key, le);
  }

  /** Two tied keys of one object make it sort differently when flipped. */
  lemma TiedKeysShow(es: seq<Entry>, i: nat, j: nat, le: KeyOrder)
    requires DistinctKeys(es) && i < j < |es| && Tied(es[i].key, es[j].key, le)
    ensures Sort(Obj(FlipEntries(es)), le) != Sort(Obj(es), le)
  {
    var flipped := FlipEntries(es);
    FlippedAt(es, i);
    FlippedAt(es, j);
    var one, two := SortNested(es, le), SortNested(flipped, le);
    NestedKeys(es, le);
    NestedKeys(flipped, le);
    SameKeysDiffer(es, flipped, one, two, i, j, le);
  }

  lemma SameKeysDiffer(es: seq<Entry>, flipped: seq<Entry>, one: seq<Entry>, two: seq<Entry>, i: nat, j: nat,
                       le: KeyOrder)
    requires DistinctKeys(es) && i < j < |es| == |flipped| && Tied(es[i].key, es[j].key, le)
    requires flipped[|es| - 1 - i].key == es[i].key && flipped[|es| - 1 - j].key == es[j].key
    requires SameKeys(es, one) && SameKeys(flipped, two)
    ensures SortEntries(one, le) != SortEntries(two, le)
  {
    MirroredTiesDiffer(one, two, i, j, le);
  }

  lemma {:induction false} SortEntriesMembers(es: seq<Entry>, le: KeyOrder, e: Entry)
    requires e in es
    ensures e in SortEntries(es, le)
  {
    assert es == [es[0]] + es[1..];
    InsertMembers(es[0], SortEntries(es[1..], le), le, e);
    if e in es[1..] {
      SortEntriesMembers(es[1..], le, e);
    }
  }

  lemma {:induction false} InsertMembers(e: Entry, es: seq<Entry>, le: KeyOrder, x: Entry)
    ensures x == e || x in es ==> x in Insert(e, es, le)
  {
    if es == [] || le(e.key, es[0].key) {
    } else {
      assert es == [es[0]] + es[1..];
      InsertMembers(e, es[1..], le, x);
    }
  }

  lemma ValuesDiffer(es: seq<Entry>, fs: seq<Entry>, x: Entry, y: Entry, le: KeyOrder)
    requires DistinctKeys(es) && x in es && y in fs && x.key == y.key && x.value != y.value
    ensures SortEntries(es, le) != SortEntries(fs, le)
  {
    SortEntriesMembers(es, le, x);
    SortEntriesMembers(fs, le, y);
    SortEntriesFields(es, le);
    if SortEntries(es, le) == SortEntries(fs, le) {
      KeyNamesEntry(SortEntries(es, le), x, y);
    }
  }

  lemma KeyNamesEntry(es: seq<Entry>, x: Entry, y: Entry)
    requires DistinctKeys(es) && x in es && y in es && x.key == y.key
    ensures x == y
  {
  }

  /** A value that sorts differently when flipped makes its object do so too. */
  lemma NestedTiesShow(es: seq<Entry>, i: nat, le: KeyOrder)
    requires DistinctKeys(es) && i < |es| && Sort(Flip(es[i].value), le) != Sort(es[i].value, le)
    ensures Sort(Obj(FlipEntries(es)), le) != Sort(Obj(es), le)
  {
    var flipped := FlipEntries(es);
    FlippedAt(es, i);
    var one, two := SortNested(es, le), SortNested(flipped, le);
    NestedKeys(es, le);
    DistinctFromSame(es, one);
    ValuesDiffer(one, two, one[i], two[|es| - 1 - i], le);
  }

  lemma DistinctFromSame(es: seq<Entry>, fs: seq<Entry>)
    requires DistinctKeys(es) && SameKeys(es, fs)
    ensures DistinctKeys(fs)
  {
  }

  lemma ItemsDiffer(items: seq<Value>, i: nat, le: KeyOrder)
    requires i < |items| && Sort(Flip(items[i]), le) != Sort(items[i], le)
    ensures Sort(Flip(Arr(items)), le) != Sort(Arr(items), le)
  {
    assert SortItems(FlipItems(items), le)[i] != SortItems(items, le)[i];
  }

  /** Ties show: a value with tied keys sorts differently once its objects are listed backwards. */
  lemma {:induction false} TiesShow(v: Value, le: KeyOrder)
    requires WellFormed(v) && !NoTies(v, le)
    ensures Sort(Flip(v), le) != Sort(v, le)
    decreases v
  {
    match v {
      case Arr(items) =>
        var i :| 0 <= i < |items| && !NoTies(items[i], le);
        TiesShow(items[i], le);
        ItemsDiffer(items, i, le);
      case Obj(es) =>
        if NoTiedKeys(es, le) {
          var i :| 0 <= i < |es| && !NoTies(es[i].value, le);
          TiesShow(es[i].value, le);
          NestedTiesShow(es, i, le);
        } else {
          var i, j :| 0 <= i < |es| && 0 <= j < |es| && es[i].key != es[j].key && Tied(es[i].key, es[j].key, le);
          TiedKeysShow(es, if i < j then i else j, if i < j then j else i, le);
        }
      case _ =>
    }
  }

  /**
    * The sorted form of a value depends on its meaning alone exactly when no object in it, at any
    * depth, has two different keys that the comparison ties.
    */
  lemma SortFormIffNoTies(v: Value, le: KeyOrder)
    requires TotalPreorder(le) && WellFormed(v)
    ensures NoTies(v, le) <==>
              forall w | WellFormed(w) && Meaning(w) == Meaning(v) :: Sort(w, le) == Sort(v, le)
  {
    if NoTies(v, le) {
      forall w | WellFormed(w) && Meaning(w) == Meaning(v)
        ensures Sort(w, le) == Sort(v, le)
      {
        SortDecidesMeaning(v, w, le);
      }
    } else {
      TiesShow(v, le);
      FlipKeepsMeaning(v);
    }
  }

  // ----- The default sort order, by UTF-16 code units

  /** The code units of one character: a surrogate pair above 0xFFFF. */
  function CodeUnits(c: char): (units: seq<int>)
    ensures 1 <= |units| <= 2
    ensures |units| == 1 ==> units[0] == c as int < 0x1_0000
    ensures |units| == 2 ==>
              && 0xD800 <= units[0] < 0xDC00 <= units[1] < 0xE000
              && c as int == 0x1_0000 + (units[0] - 0xD800) * 0x400 + (units[1] - 0xDC00)
  {
    var code := c as int;
    if code < 0x1_0000 then [code]
    else [0xD800 + (code - 0x1_0000) / 0x400, 0xDC00 + (code - 0x1_0000) % 0x400]
  }

  /** A string as JavaScript holds it. */
  function Utf16(s: string): seq<int> {
    if s == "" then [] else CodeUnits(s[0]) + Utf16(s[1..])
  }

  predicate UnitsLe(a: seq<int>, b: seq<int>) {
    a == [] || (b != [] && (a[0] < b[0] || (a[0] == b[0] && UnitsLe(a[1..], b[1..]))))
  }

  /** The order of `sort()` without a comparison: by code units, not by characters. */
  predicate LexLe(a: string, b: string) {
    UnitsLe(Utf16(a), Utf16(b))
  }

  lemma {:induction false} UnitsTotal(a: seq<int>, b: seq<int>)
    ensures UnitsLe(a, b) || UnitsLe(b, a)
  {
    if a == [] || b == [] || a[0] != b[0] {
    } else {
      UnitsTotal(a[1..], b[1..]);
    }
  }

  lemma {:induction false} UnitsAntisymmetric(a: seq<int>, b: seq<int>)
    requires UnitsLe(a, b) && UnitsLe(b, a)
    ensures a == b
  {
    if a == [] {
    } else {
      UnitsAntisymmetric(a[1..], b[1..]);
      assert a == [a[0]] + a[1..] && b == [b[0]] + b[1..];
    }
  }

  lemma {:induction false} UnitsTransitive(a: seq<int>, b: seq<int>, c: seq<int>)
    requires UnitsLe(a, b) && UnitsLe(b, c)
    ensures UnitsLe(a, c)
  {
    if a == [] || !(a[0] == b[0] == c[0]) {
    } else {
      UnitsTransitive(a[1..], b[1..], c[1..]);
    }
  }

  /** The first unit of a character tells how many it has, and all of them which character it is. */
  lemma CodeUnitsPrefixFree(c: char, d: char, s: seq<int>, t: seq<int>)
    requires CodeUnits(c) + s == CodeUnits(d) + t
    ensures c == d && s == t
  {
    var u, v := CodeUnits(c), CodeUnits(d);
    assert (u + s)[0] == u[0] && (v + t)[0] == v[0];
    assert |u| == |v|;
    assert u == (u + s)[..|u|] && v == (v + t)[..|v|];
    assert s == (u + s)[|u|..] && t == (v + t)[|v|..];
    assert c as int == d as int;
  }

  /** Different strings have different code units. */
  lemma {:induction false} Utf16Injective(a: string, b: string)
    requires Utf16(a) == Utf16(b)
    ensures a == b
  {
    if a == "" || b == "" {
      assert |Utf16(a)| == |Utf16(b)|;
    } else {
      CodeUnitsPrefixFree(a[0], b[0], Utf16(a[1..]), Utf16(b[1..]));
      Utf16Injective(a[1..], b[1..]);
      assert a == [a[0]] + a[1..] && b == [b[0]] + b[1..];
    }
  }

  /** The default sort order of the runtime's `stableStringify` is a total order: it ties no keys. */
  lemma LexIsTotalOrder()
    ensures TotalOrder(LexLe)
  {
    forall a, b
      ensures LexLe(a, b) || LexLe(b, a)
      ensures LexLe(a, b) && LexLe(b, a) ==> a == b
    {
      UnitsTotal(Utf16(a), Utf16(b));
      if LexLe(a, b) && LexLe(b, a) {
        UnitsAntisymmetric(Utf16(a), Utf16(b));
        Utf16Injective(a, b);
      }
    }
    forall a, b, c | LexLe(a, b) && LexLe(b, c)
      ensures LexLe(a, c)
    {
      UnitsTransitive(Utf16(a), Utf16(b), Utf16(c));
    }
  }

  /** So `stableStringify` decides equality up to key order of all values. */
  lemma StableStringifyDecides(v: Value, w: Value)
    requires WellFormed(v) && WellFormed(w)
    ensures Sort(v, LexLe) == Sort(w, LexLe) <==> Meaning(v) == Meaning(w)
  {
    LexIsTotalOrder();
    OrderHasNoTies(v, LexLe);
    SortDecidesMeaning(v, w, LexLe);
  }

  lemma {:induction false} OrderHasNoTies(v: Value, le: KeyOrder)
    requires TotalOrder(le)
    ensures NoTies(v, le)
    decreases v
  {
    match v {
      case Arr(items) =>
        forall i | 0 <= i < |items|
          ensures NoTies(items[i], le)
        {
          OrderHasNoTies(items[i], le);
        }
      case Obj(es) =>
        forall i | 0 <= i < |es|
          ensures NoTies(es[i].value, le)
        {
          OrderHasNoTies(es[i].value, le);
        }
      case _ =>
    }
  }
}
