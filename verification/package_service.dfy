/** The store catalogue utilities: normalising the category manifest,
    sorting packages into display categories, and deriving default
    categories from the packages' own `category` strings. */
module PackageService {
  import opened JsValues
  import opened Sequences

  const Uncategorized := "uncategorized"
  const AllPackagesName := "All Packages"
  const AllPackagesDescription := "All available packages"
  const OtherPackagesName := "Other Packages"
  const OtherPackagesDescription := "Additional packages"
  const UnnamedCategoryName := "Unnamed Category"
  const RandomIdPrefix := "category-"

  /** A store package; only the fields the catalogue code reads. */
  datatype Package = Package(id: Scalar, category: Scalar, name: Scalar)

  /** The `packages` argument of the categoriser: an array, an object whose
      `data` field is an array, or anything else. */
  datatype PackagesInput = PackageArray(items: seq<Package>) | DataObject(data: seq<Package>) | OtherInput

  /** One element of a category's `packages` array: a raw id or an object with an `id`. */
  datatype PackageRef = RawRef(value: Scalar) | ObjectRef(id: Scalar)

  /** A category's `packages` field: an array of references, a plain object
      whose keys are package ids, or something else (absent, falsy or a primitive). */
  datatype PackagesField = RefArray(refs: seq<PackageRef>) | KeyObject(keys: seq<string>) | NoRefs

  datatype Category = Category(id: Scalar, name: Scalar, description: Scalar, packages: PackagesField, order: Scalar)

  /** The parsed category manifest: an object holding a `categories` array, or anything else. */
  datatype Manifest = Manifest(categories: seq<Category>) | MalformedManifest

  /** One display bucket of the categoriser's result. */
  datatype Bucket = Bucket(id: Scalar, name: Scalar, description: Scalar, order: Scalar, packages: seq<Package>)

  // ---------------------------------------------------------------------
  // Manifest normalisation (the pure part of fetchCategories)
  // ---------------------------------------------------------------------

  /** Fills in the missing fields of one category. `randomSuffix` stands for
      the random text a missing id is built from. */
  function NormalizeCategory(c: Category, randomSuffix: string): (r: Category)
    ensures Normalized(r)
    ensures Truthy(c.id) ==> r.id == c.id
    ensures !Truthy(c.id) ==> r.id == Str(RandomIdPrefix + randomSuffix)
    ensures Truthy(c.name) ==> r.name == c.name
    ensures !Truthy(c.name) ==> r.name == Str(UnnamedCategoryName)
    ensures r.description == (if Truthy(c.description) then c.description else Str(""))
    ensures c.packages.RefArray? ==> r.packages == c.packages
    ensures !c.packages.RefArray? ==> r.packages == RefArray([])
    ensures c.order.Num? ==> r.order == c.order
    ensures !c.order.Num? ==> r.order == Num(0)
  {
    Category(
      if Truthy(c.id) then c.id else Str(RandomIdPrefix + randomSuffix),
      if Truthy(c.name) then c.name else Str(UnnamedCategoryName),
      if Truthy(c.description) then c.description else Str(""),
      if c.packages.RefArray? then c.packages else RefArray([]),
      if c.order.Num? then c.order else Num(0))
  }

  /** Every field a consumer reads is present after normalisation. */
  predicate Normalized(c: Category) {
    Truthy(c.id) && Truthy(c.name) && c.packages.RefArray? && c.order.Num?
  }

  /** The sort key `a.order - b.order` compares; non-numeric orders count as 0. */
  function OrderOf(c: Category): int {
    if c.order.Num? then c.order.n else 0
  }

  predicate SortedByOrder(s: seq<Category>) {
    forall i, j :: 0 <= i < j < |s| ==> OrderOf(s[i]) <= OrderOf(s[j])
  }

  /** The categories of `s` whose order is `k`, in their order in `s`. */
  function WithOrder(s: seq<Category>, k: int): seq<Category> {
    if s == [] then [] else (if OrderOf(s[0]) == k then [s[0]] else []) + WithOrder(s[1..], k)
  }

  lemma {:induction false} WithOrderAppend(s: seq<Category>, t: seq<Category>, k: int)
    ensures WithOrder(s + t, k) == WithOrder(s, k) + WithOrder(t, k)
  {
    if s != [] {
      var head := if OrderOf(s[0]) == k then [s[0]] else [];
      calc {
        WithOrder(s + t, k);
        { assert (s + t)[0] == s[0] && (s + t)[1..] == s[1..] + t; }
        head + WithOrder(s[1..] + t, k);
        { WithOrderAppend(s[1..], t, k); }
        head + (WithOrder(s[1..], k) + WithOrder(t, k));
        (head + WithOrder(s[1..], k)) + WithOrder(t, k);
      }
    } else {
      assert s + t == t;
    }
  }

  lemma {:induction false} WithOrderNone(s: seq<Category>, k: int)
    requires forall i :: 0 <= i < |s| ==> OrderOf(s[i]) != k
    ensures WithOrder(s, k) == []
  {
    if s != [] {
      WithOrderNone(s[1..], k);
    }
  }

  /** Inserts `c` after every element whose order is at most `c`'s: the
      step of a stable insertion sort. */
  function InsertByOrder(c: Category, t: seq<Category>): seq<Category> {
    if t == [] then [c]
    else if OrderOf(c) < OrderOf(t[0]) then [c] + t
    else [t[0]] + InsertByOrder(c, t[1..])
  }

  /** Insertion adds exactly `c`. */
  lemma {:induction false} InsertByOrderMultiset(c: Category, t: seq<Category>)
    ensures multiset(InsertByOrder(c, t)) == multiset(t) + multiset{c}
  {
    if t != [] && OrderOf(c) >= OrderOf(t[0]) {
      InsertByOrderMultiset(c, t[1..]);
      assert t == [t[0]] + t[1..];
    }
  }

  /** Every element of the insertion result is `c` or came from `t`. */
  lemma {:induction false} InsertByOrderMembers(c: Category, t: seq<Category>, x: Category)
    requires x in InsertByOrder(c, t)
    ensures x == c || x in t
  {
    if t != [] && OrderOf(c) >= OrderOf(t[0]) && x != t[0] {
      InsertByOrderMembers(c, t[1..], x);
    }
  }

  /** Insertion keeps a sorted sequence sorted. */
  lemma {:induction false} InsertByOrderSorted(c: Category, t: seq<Category>)
    requires SortedByOrder(t)
    ensures SortedByOrder(InsertByOrder(c, t))
  {
    if t != [] && OrderOf(c) >= OrderOf(t[0]) {
      var rest := InsertByOrder(c, t[1..]);
      assert SortedByOrder(t[1..]);
      InsertByOrderSorted(c, t[1..]);
      forall j | 0 <= j < |rest|
        ensures OrderOf(t[0]) <= OrderOf(rest[j])
      {
        InsertByOrderMembers(c, t[1..], rest[j]);
      }
      var r := [t[0]] + rest;
      forall i, j | 0 <= i < j < |r| ensures OrderOf(r[i]) <= OrderOf(r[j]) {
        assert r[j] == rest[j - 1];
        if i > 0 {
          assert r[i] == rest[i - 1];
        }
      }
    }
  }

  /** `WithOrder` of a list with a given first element. */
  lemma WithOrderCons(x: Category, s: seq<Category>, k: int)
    ensures WithOrder([x] + s, k) == (if OrderOf(x) == k then [x] else []) + WithOrder(s, k)
  {
    assert ([x] + s)[0] == x && ([x] + s)[1..] == s;
  }

  /** A sorted list is its first element, no larger than any other, followed
      by a sorted rest. */
  lemma SortedSplitFirst(t: seq<Category>)
    requires t != [] && SortedByOrder(t)
    ensures SortedByOrder(t[1..])
    ensures forall i :: 0 <= i < |t| ==> OrderOf(t[0]) <= OrderOf(t[i])
  {
    SortedTail(t);
  }

  lemma SortedTail(t: seq<Category>)
    requires t != [] && SortedByOrder(t)
    ensures SortedByOrder(t[1..])
  {
    assert forall i :: 1 <= i < |t| ==> t[1..][i - 1] == t[i];
  }

  lemma {:induction false} InsertByOrderStable(c: Category, t: seq<Category>, k: int)
    requires SortedByOrder(t)
    ensures WithOrder(InsertByOrder(c, t), k) == WithOrder(t, k) + (if OrderOf(c) == k then [c] else [])
  {
    if t == [] {
      assert InsertByOrder(c, t) == [c] + t;
      WithOrderCons(c, t, k);
    } else if OrderOf(c) < OrderOf(t[0]) {
      SortedSplitFirst(t);
      InsertBeforeAll(c, t, k);
    } else {
      SortedTail(t);
      InsertByOrderStable(c, t[1..], k);
      InsertAfterFirst(c, t, k);
    }
  }

  /** Inserting in front of strictly larger orders puts `c` after nothing of its order. */
  lemma InsertBeforeAll(c: Category, t: seq<Category>, k: int)
    requires forall i :: 0 <= i < |t| ==> OrderOf(c) < OrderOf(t[i])
    ensures WithOrder([c] + t, k) == WithOrder(t, k) + (if OrderOf(c) == k then [c] else [])
  {
    WithOrderCons(c, t, k);
    if OrderOf(c) == k {
      WithOrderNone(t, k);
    }
  }

  /** Insertion past the first element carries the stability of the rest over. */
  lemma InsertAfterFirst(c: Category, t: seq<Category>, k: int)
    requires t != [] && OrderOf(c) >= OrderOf(t[0])
    requires WithOrder(InsertByOrder(c, t[1..]), k) == WithOrder(t[1..], k) + (if OrderOf(c) == k then [c] else [])
    ensures WithOrder(InsertByOrder(c, t), k) == WithOrder(t, k) + (if OrderOf(c) == k then [c] else [])
  {
    var own := if OrderOf(c) == k then [c] else [];
    var rest := InsertByOrder(c, t[1..]);
    var head := if OrderOf(t[0]) == k then [t[0]] else [];
    calc {
      WithOrder(InsertByOrder(c, t), k);
      { assert InsertByOrder(c, t) == [t[0]] + rest;
        WithOrderCons(t[0], rest, k); }
      head + WithOrder(rest, k);
      head + (WithOrder(t[1..], k) + own);
      (head + WithOrder(t[1..], k)) + own;
      { assert t == [t[0]] + t[1..];
        WithOrderCons(t[0], t[1..], k); }
      WithOrder(t, k) + own;
    }
  }

  /** `Array.prototype.sort` with comparator `a.order - b.order`, which is stable. */
  function SortByOrder(s: seq<Category>): (r: seq<Category>)
    ensures SortedByOrder(r)
    ensures multiset(r) == multiset(s)
  {
    if s == [] then []
    else
      var sortedInit := SortByOrder(s[..|s| - 1]);
      InsertByOrderSorted(s[|s| - 1], sortedInit);
      InsertByOrderMultiset(s[|s| - 1], sortedInit);
      assert s == s[..|s| - 1] + [s[|s| - 1]];
      InsertByOrder(s[|s| - 1], sortedInit)
  }

  /** The sort keeps categories with equal order in their manifest order. */
  lemma {:induction false} SortByOrderStable(s: seq<Category>, k: int)
    ensures WithOrder(SortByOrder(s), k) == WithOrder(s, k)
  {
    if s != [] {
      var init, last := s[..|s| - 1], s[|s| - 1];
      var tail := if OrderOf(last) == k then [last] else [];
      var sortedInit := SortByOrder(init);
      assert SortByOrder(s) == InsertByOrder(last, sortedInit);
      InsertByOrderStable(last, sortedInit, k);
      SortByOrderStable(init, k);
      assert WithOrder(SortByOrder(s), k) == WithOrder(init, k) + tail;
      assert s == init + [last];
      WithOrderAppend(init, [last], k);
      assert WithOrder([last], k) == tail by {
        assert [last][1..] == [];
      }
    }
  }

  /** The categories a manifest yields: none when it is malformed, otherwise
      each category normalised (category `i` drawing `randomSuffix(i)` when
      its id is missing), then sorted by order. */
  function NormalizeManifest(m: Manifest, randomSuffix: nat -> string): (r: seq<Category>)
    ensures m.MalformedManifest? ==> r == []
    ensures m.Manifest? ==> |r| == |m.categories|
    ensures SortedByOrder(r)
    ensures forall i :: 0 <= i < |r| ==> Normalized(r[i])
  {
    if m.MalformedManifest? || |m.categories| == 0 then []
    else
      var cs := m.categories;
      var normalized := seq(|cs|, i requires 0 <= i < |cs| => NormalizeCategory(cs[i], randomSuffix(i)));
      var r := SortByOrder(normalized);
      assert |r| == |multiset(r)| == |multiset(normalized)| == |normalized|;
      assert forall j :: 0 <= j < |normalized| ==> normalized[j] == NormalizeCategory(cs[j], randomSuffix(j));
      assert forall j :: 0 <= j < |normalized| ==> Normalized(normalized[j]);
      assert forall i :: 0 <= i < |r| ==> r[i] in multiset(normalized);
      r
  }

  /** Normalising reorders the manifest's categories without losing or
      duplicating any, and keeps equal-order categories in manifest order. */
  lemma NormalizeManifestPermutes(cs: seq<Category>, randomSuffix: nat -> string, k: int)
    ensures var normalized := seq(|cs|, i requires 0 <= i < |cs| => NormalizeCategory(cs[i], randomSuffix(i)));
            var r := NormalizeManifest(Manifest(cs), randomSuffix);
            multiset(r) == multiset(normalized) && WithOrder(r, k) == WithOrder(normalized, k)
  {
    var normalized := seq(|cs|, i requires 0 <= i < |cs| => NormalizeCategory(cs[i], randomSuffix(i)));
    if |cs| > 0 {
      SortByOrderStable(normalized, k);
    }
  }

  // ---------------------------------------------------------------------
  // categorizePackages
  // ---------------------------------------------------------------------

  /** The package array the categoriser works on: `packages.data` when that
      is an array, else `packages` itself when it is an array, else none. */
  function PackageList(input: PackagesInput): (r: seq<Package>)
    ensures input.OtherInput? ==> r == []
    ensures forall p :: p in r <==> (input.PackageArray? && p in input.items) || (input.DataObject? && p in input.data)
  {
    match input
    case PackageArray(items) => items
    case DataObject(data) => data
    case OtherInput => []
  }

  /** The id string a category's package reference stands for:
      `item?.id ? String(item.id) : String(item)`. */
  function RefId(r: PackageRef): (id: string)
    ensures r.RawRef? && r.value.Str? ==> id == r.value.s
  {
    match r
    case RawRef(v) => ToJsString(v)
    case ObjectRef(id) => if Truthy(id) then ToJsString(id) else "[object Object]"
  }

  /** A bare id and an object carrying it refer to the same package exactly
      when the id is truthy; an object with a falsy id stands for
      "[object Object]", which no falsy primitive's string form equals. */
  lemma RefFormsAgree(v: Scalar)
    ensures RefId(ObjectRef(v)) == RefId(RawRef(v)) <==> Truthy(v)
  {
    if v.Num? && v.n == 0 {
      assert ToJsString(v) == "0";
    }
  }

  /** The id strings a category's `packages` field refers to. */
  function PackageIds(f: PackagesField): set<string> {
    match f
    case RefArray(refs) => set r | r in refs :: RefId(r)
    case KeyObject(keys) => set k | k in keys
    case NoRefs => {}
  }

  /** The property key a category is stored under: `acc[category.id]`
      converts the id with `String(category.id)`. */
  function CategoryKey(c: Category): string {
    ToJsString(c.id)
  }

  /** Only the string "uncategorized" itself is stored under the key "uncategorized". */
  lemma UncategorizedKey(v: Scalar)
    ensures ToJsString(v) == Uncategorized ==> v == Str(Uncategorized)
  {
    if v.Num? {
      var s := ToJsString(v);
      assert s[0] == '-' || IsDigit(s[0]);
    }
  }

  /** A category together with the id set built for it. */
  datatype Entry = Entry(category: Category, ids: set<string>)

  /** `categoryMap`: one entry per category key; a later category with the
      same key replaces an earlier one, as an object assignment does. */
  function CategoryMap(cs: seq<Category>): (cm: map<string, Entry>)
    ensures cm.Keys == set i | 0 <= i < |cs| :: CategoryKey(cs[i])
    ensures forall k :: k in cm ==> CategoryKey(cm[k].category) == k
  {
    if cs == [] then map[]
    else
      var c := cs[|cs| - 1];
      var before := CategoryMap(cs[..|cs| - 1]);
      assert forall i :: 0 <= i < |cs| - 1 ==> cs[..|cs| - 1][i] == cs[i];
      before[CategoryKey(c) := Entry(c, PackageIds(c.packages))]
  }

  /** The last category stored under a key is the one whose entry the map holds. */
  lemma {:induction false} CategoryMapEntry(cs: seq<Category>, i: nat)
    requires i < |cs|
    requires forall j :: i < j < |cs| ==> CategoryKey(cs[j]) != CategoryKey(cs[i])
    ensures CategoryKey(cs[i]) in CategoryMap(cs)
    ensures CategoryMap(cs)[CategoryKey(cs[i])] == Entry(cs[i], PackageIds(cs[i].packages))
  {
    if i < |cs| - 1 {
      CategoryMapEntry(cs[..|cs| - 1], i);
    }
  }

  /** Every entry of the map comes from one of the categories. */
  lemma {:induction false} CategoryMapFrom(cs: seq<Category>, k: string)
    requires k in CategoryMap(cs)
    ensures exists i :: 0 <= i < |cs| && CategoryMap(cs)[k] == Entry(cs[i], PackageIds(cs[i].packages))
  {
    var c := cs[|cs| - 1];
    if CategoryKey(c) != k {
      CategoryMapFrom(cs[..|cs| - 1], k);
      var i :| 0 <= i < |cs| - 1 && CategoryMap(cs[..|cs| - 1])[k] == Entry(cs[..|cs| - 1][i], PackageIds(cs[..|cs| - 1][i].packages));
      assert cs[..|cs| - 1][i] == cs[i];
    }
  }

  /** `category.packageIds.has(String(pkg.id))` for the category stored under `k`. */
  predicate Matches(p: Package, cm: map<string, Entry>, k: string) {
    k in cm && ToJsString(p.id) in cm[k].ids
  }

  predicate MatchesAny(p: Package, cm: map<string, Entry>) {
    exists k :: k in cm && ToJsString(p.id) in cm[k].ids
  }

  /** Whether the bucket under key `k` receives `p`: a package with an id goes
      into every category whose id set holds it, and into the catch-all when
      no category does. */
  predicate Belongs(p: Package, cm: map<string, Entry>, k: string) {
    Truthy(p.id) && (Matches(p, cm, k) || (k == Uncategorized && !MatchesAny(p, cm)))
  }

  /** The `packages` array the loop builds for key `k`: the packages of `ps`
      that belong there, pushed in input order. */
  function Members(ps: seq<Package>, cm: map<string, Entry>, k: string): seq<Package> {
    if ps == [] then []
    else Members(ps[..|ps| - 1], cm, k) + (if Belongs(ps[|ps| - 1], cm, k) then [ps[|ps| - 1]] else [])
  }

  /** A bucket holds a package exactly when the package belongs under its key. */
  lemma {:induction false} MembersIff(ps: seq<Package>, cm: map<string, Entry>, k: string, p: Package)
    ensures p in Members(ps, cm, k) <==> p in ps && Belongs(p, cm, k)
  {
    if ps != [] {
      MembersIff(ps[..|ps| - 1], cm, k, p);
      assert ps == ps[..|ps| - 1] + [ps[|ps| - 1]];
    }
  }

  /** A bucket keeps the input order of its packages. */
  lemma {:induction false} MembersInOrder(ps: seq<Package>, cm: map<string, Entry>, k: string)
    ensures Subseq(Members(ps, cm, k), ps)
  {
    if ps != [] {
      var init, last := ps[..|ps| - 1], ps[|ps| - 1];
      MembersInOrder(init, cm, k);
      var m := Members(ps, cm, k);
      if Belongs(last, cm, k) {
        assert m[..|m| - 1] == Members(init, cm, k);
      } else {
        assert m == Members(init, cm, k) && ps[..|ps| - 1] == init;
      }
    }
  }

  /** The bucket a category starts from: `{...category, packages: []}`. */
  function CategoryBucket(c: Category): Bucket {
    Bucket(c.id, c.name, c.description, c.order, [])
  }

  const CatchAll := Bucket(Str(Uncategorized), Str(OtherPackagesName), Str(OtherPackagesDescription), Undefined, [])

  /** The empty bucket stored under `k` before any package is placed; the
      catch-all replaces a category stored under the key "uncategorized". */
  function EmptyBucket(cm: map<string, Entry>, k: string): Bucket
    requires k in cm || k == Uncategorized
  {
    if k == Uncategorized then CatchAll else CategoryBucket(cm[k].category)
  }

  /** `result` after the package loop: the category buckets and the
      catch-all, each filled with the packages that belong under its key. */
  function Filled(ps: seq<Package>, cm: map<string, Entry>): map<string, Bucket> {
    map k | k in cm.Keys + {Uncategorized} :: EmptyBucket(cm, k).(packages := Members(ps, cm, k))
  }

  /** `result` after the loop that deletes empty category buckets: empty
      category buckets dropped; the catch-all stays. */
  function Pruned(m: map<string, Bucket>): map<string, Bucket> {
    map k | k in m && (k == Uncategorized || |m[k].packages| > 0) :: m[k]
  }

  /** The final `result`: when exactly one category bucket remains and the
      catch-all is empty, that bucket is renamed "All Packages" and the
      catch-all is dropped. */
  function Collapsed(m: map<string, Bucket>): map<string, Bucket>
    requires Uncategorized in m
  {
    var valid := m.Keys - {Uncategorized};
    if |valid| == 1 && |m[Uncategorized].packages| == 0 then
      map k | k in valid :: m[k].(name := Str(AllPackagesName), description := Str(AllPackagesDescription))
    else m
  }

  /** What `categorizePackages(packages, categories)` returns. */
  function Categorized(input: PackagesInput, cs: seq<Category>): (r: map<string, Bucket>)
    ensures cs == [] ==> r.Keys == {Uncategorized} && r[Uncategorized].name == Str(AllPackagesName)
                         && r[Uncategorized].packages == PackageList(input)
    ensures cs != [] ==> forall k :: k in r ==>
              (k == Uncategorized || k in CategoryMap(cs)) && r[k].packages == Members(PackageList(input), CategoryMap(cs), k)
    ensures cs != [] ==> forall k :: k in r && k != Uncategorized ==> |r[k].packages| > 0
    ensures cs == [] ==> r[Uncategorized] == Bucket(Str(Uncategorized), Str(AllPackagesName), Str(AllPackagesDescription), Undefined, PackageList(input))
    ensures cs != [] && Uncategorized in r ==> forall k :: k in r ==>
              (k == Uncategorized || k in CategoryMap(cs)) &&
              r[k] == EmptyBucket(CategoryMap(cs), k).(packages := r[k].packages)
    ensures cs != [] && Uncategorized !in r ==> forall k :: k in r ==>
              k in CategoryMap(cs) &&
              r[k] == EmptyBucket(CategoryMap(cs), k).(name := Str(AllPackagesName), description := Str(AllPackagesDescription), packages := r[k].packages)
  {
    var ps := PackageList(input);
    if cs == [] then
      map[Uncategorized := Bucket(Str(Uncategorized), Str(AllPackagesName), Str(AllPackagesDescription), Undefined, ps)]
    else
      Collapsed(Pruned(Filled(ps, CategoryMap(cs))))
  }

  /** Builds a category's id set (the `forEach` that fills `packageIds`). */
  method CollectPackageIds(f: PackagesField) returns (ids: set<string>)
    ensures ids == PackageIds(f)
  {
    ids := {};
    match f
    case RefArray(refs) =>
      for i := 0 to |refs|
        invariant ids == set r | r in refs[..i] :: RefId(r)
      {
        assert refs[..i + 1] == refs[..i] + [refs[i]];
        ids := ids + {RefId(refs[i])};
      }
      assert refs[..|refs|] == refs;
    case KeyObject(keys) =>
      for i := 0 to |keys|
        invariant ids == set k | k in keys[..i]
      {
        assert keys[..i + 1] == keys[..i] + [keys[i]];
        ids := ids + {keys[i]};
      }
      assert keys[..|keys|] == keys;
    case NoRefs =>
  }

  predicate DistinctKeys(keys: seq<string>) {
    forall i, j :: 0 <= i < j < |keys| ==> keys[i] != keys[j]
  }

  /** The `reduce` that builds `categoryMap`; `keys` lists its keys in
      insertion order, the order `Object.entries` visits them. */
  method BuildCategoryMap(cs: seq<Category>) returns (cm: map<string, Entry>, keys: seq<string>)
    ensures cm == CategoryMap(cs)
    ensures DistinctKeys(keys) && forall k :: k in keys <==> k in cm
  {
    cm, keys := map[], [];
    for i := 0 to |cs|
      invariant cm == CategoryMap(cs[..i])
      invariant DistinctKeys(keys) && forall k :: k in keys <==> k in cm
    {
      var packageIds := CollectPackageIds(cs[i].packages);
      var key := CategoryKey(cs[i]);
      if key !in cm {
        keys := keys + [key];
      }
      cm := cm[key := Entry(cs[i], packageIds)];
      assert cs[..i + 1][..i] == cs[..i];
    }
    assert cs[..|cs|] == cs;
  }

  /** The inner `for` loop over `Object.entries(categoryMap)`: appends `pkg` to
      every category whose id set holds its id and reports whether any did. */
  method AppendToMatching(pkg: Package, categoryMap: map<string, Entry>, keys: seq<string>, before: map<string, Bucket>)
    returns (result: map<string, Bucket>, isCategorized: bool)
    requires DistinctKeys(keys) && forall k :: k in keys <==> k in categoryMap
    requires before.Keys == categoryMap.Keys + {Uncategorized}
    ensures result.Keys == before.Keys
    ensures isCategorized <==> MatchesAny(pkg, categoryMap)
    ensures forall k :: k in result ==> result[k] == Appended(before, pkg, categoryMap, k)
  {
    result := before;
    isCategorized := false;
    for j := 0 to |keys|
      invariant result == AppendedThrough(before, pkg, categoryMap, keys[..j])
      invariant isCategorized == AnyListed(pkg, categoryMap, keys[..j])
    {
      AppendedThroughStep(before, pkg, categoryMap, keys, j);
      var catId := keys[j];
      if ToJsString(pkg.id) in categoryMap[catId].ids {
        result := result[catId := result[catId].(packages := result[catId].packages + [pkg])];
        isCategorized := true;
      }
    }
    assert keys[..|keys|] == keys;
    AppendedThroughAll(pkg, categoryMap, keys, before);
  }

  /** The buckets after the categories under `ks` were visited in turn. */
  function AppendedThrough(before: map<string, Bucket>, pkg: Package, categoryMap: map<string, Entry>, ks: seq<string>)
    : (r: map<string, Bucket>)
    ensures r.Keys == before.Keys
  {
    if ks == [] then before
    else
      var m := AppendedThrough(before, pkg, categoryMap, ks[..|ks| - 1]);
      var k := ks[|ks| - 1];
      if Matches(pkg, categoryMap, k) && k in m then m[k := m[k].(packages := m[k].packages + [pkg])] else m
  }

  /** Visiting one more key of `keys`. */
  lemma AppendedThroughStep(before: map<string, Bucket>, pkg: Package, categoryMap: map<string, Entry>, keys: seq<string>, j: nat)
    requires j < |keys|
    ensures var m, k := AppendedThrough(before, pkg, categoryMap, keys[..j]), keys[j];
            AppendedThrough(before, pkg, categoryMap, keys[..j + 1]) ==
              (if Matches(pkg, categoryMap, k) && k in m then m[k := m[k].(packages := m[k].packages + [pkg])] else m)
    ensures AnyListed(pkg, categoryMap, keys[..j + 1]) == (Matches(pkg, categoryMap, keys[j]) || AnyListed(pkg, categoryMap, keys[..j]))
  {
    assert keys[..j + 1][..j] == keys[..j];
  }

  /** Visiting distinct keys appends the package once to each listing bucket. */
  lemma {:induction false} AppendedThroughSpec(before: map<string, Bucket>, pkg: Package, categoryMap: map<string, Entry>, ks: seq<string>)
    requires DistinctKeys(ks)
    ensures forall k :: k in before ==>
              AppendedThrough(before, pkg, categoryMap, ks)[k] ==
              (if k in ks then Appended(before, pkg, categoryMap, k) else before[k])
  {
    if ks != [] {
      var init, last := ks[..|ks| - 1], ks[|ks| - 1];
      assert DistinctKeys(init);
      AppendedThroughSpec(before, pkg, categoryMap, init);
      assert last !in init by {
        forall i | 0 <= i < |init| ensures init[i] != last {
          assert init[i] == ks[i];
        }
      }
      forall k | k in before
        ensures AppendedThrough(before, pkg, categoryMap, ks)[k] ==
                (if k in ks then Appended(before, pkg, categoryMap, k) else before[k])
      {
        assert k in ks <==> k in init || k == last;
      }
    }
  }

  /** After every key was visited: the effect `AppendToMatching` promises. */
  lemma AppendedThroughAll(pkg: Package, categoryMap: map<string, Entry>, keys: seq<string>, before: map<string, Bucket>)
    requires DistinctKeys(keys) && forall k :: k in keys <==> k in categoryMap
    requires before.Keys == categoryMap.Keys + {Uncategorized}
    ensures AnyListed(pkg, categoryMap, keys) <==> MatchesAny(pkg, categoryMap)
    ensures forall k :: k in before ==> AppendedThrough(before, pkg, categoryMap, keys)[k] == Appended(before, pkg, categoryMap, k)
  {
    AppendedThroughSpec(before, pkg, categoryMap, keys);
    KeysCoverMatches(pkg, categoryMap, keys);
  }

  /** The bucket under `k` after `pkg` is appended when it matches that category. */
  function Appended(before: map<string, Bucket>, pkg: Package, categoryMap: map<string, Entry>, k: string): Bucket
    requires k in before
  {
    before[k].(packages := before[k].packages + (if Matches(pkg, categoryMap, k) then [pkg] else []))
  }

  /** Whether some key of `ks` lists the package. */
  predicate AnyListed(pkg: Package, categoryMap: map<string, Entry>, ks: seq<string>) {
    ks != [] && (Matches(pkg, categoryMap, ks[|ks| - 1]) || AnyListed(pkg, categoryMap, ks[..|ks| - 1]))
  }

  lemma {:induction false} AnyListedIff(pkg: Package, categoryMap: map<string, Entry>, ks: seq<string>)
    ensures AnyListed(pkg, categoryMap, ks) <==> exists jj :: 0 <= jj < |ks| && Matches(pkg, categoryMap, ks[jj])
  {
    if ks != [] {
      var init := ks[..|ks| - 1];
      AnyListedIff(pkg, categoryMap, init);
      if AnyListed(pkg, categoryMap, init) {
        var jj :| 0 <= jj < |init| && Matches(pkg, categoryMap, init[jj]);
        assert ks[jj] == init[jj];
      }
      if exists jj :: 0 <= jj < |ks| && Matches(pkg, categoryMap, ks[jj]) {
        var jj :| 0 <= jj < |ks| && Matches(pkg, categoryMap, ks[jj]);
        if jj < |init| {
          assert init[jj] == ks[jj];
        }
      }
    }
  }

  lemma KeysCoverMatches(pkg: Package, categoryMap: map<string, Entry>, keys: seq<string>)
    requires forall k :: k in keys <==> k in categoryMap
    ensures MatchesAny(pkg, categoryMap) <==> AnyListed(pkg, categoryMap, keys)
  {
    AnyListedIff(pkg, categoryMap, keys);
    if MatchesAny(pkg, categoryMap) {
      var k :| k in categoryMap && ToJsString(pkg.id) in categoryMap[k].ids;
      var jj :| 0 <= jj < |keys| && keys[jj] == k;
      assert Matches(pkg, categoryMap, keys[jj]);
    }
  }

  /** Places one package with an id (the body of the package `forEach`):
      appended to every category whose id set holds its id, else to the catch-all. */
  method PlacePackage(pkg: Package, categoryMap: map<string, Entry>, keys: seq<string>, before: map<string, Bucket>)
    returns (result: map<string, Bucket>)
    requires Truthy(pkg.id)
    requires DistinctKeys(keys) && forall k :: k in keys <==> k in categoryMap
    requires before.Keys == categoryMap.Keys + {Uncategorized}
    ensures result == PlacedInto(before, pkg, categoryMap)
  {
    var isCategorized;
    result, isCategorized := AppendToMatching(pkg, categoryMap, keys, before);
    if !isCategorized {
      result := result[Uncategorized := result[Uncategorized].(packages := result[Uncategorized].packages + [pkg])];
    }
    forall k | k in result ensures result[k] == PlacedInto(before, pkg, categoryMap)[k] {
    }
  }

  /** Every bucket the package belongs to, with the package appended. */
  function PlacedInto(before: map<string, Bucket>, pkg: Package, categoryMap: map<string, Entry>): (r: map<string, Bucket>)
    ensures r.Keys == before.Keys
  {
    map k | k in before :: before[k].(packages := before[k].packages + (if Belongs(pkg, categoryMap, k) then [pkg] else []))
  }

  /** Starts every bucket empty and places the packages one by one. */
  method FillBuckets(packageArray: seq<Package>, categoryMap: map<string, Entry>, keys: seq<string>)
    returns (result: map<string, Bucket>)
    requires DistinctKeys(keys) && forall k :: k in keys <==> k in categoryMap
    ensures result == Filled(packageArray, categoryMap)
  {
    result := map k | k in categoryMap :: CategoryBucket(categoryMap[k].category);
    result := result[Uncategorized := CatchAll];
    assert result == Filled([], categoryMap);
    for i := 0 to |packageArray|
      invariant result == Filled(packageArray[..i], categoryMap)
    {
      FilledStep(packageArray, categoryMap, i);
      if Truthy(packageArray[i].id) {
        result := PlacePackage(packageArray[i], categoryMap, keys, result);
      }
    }
    assert packageArray[..|packageArray|] == packageArray;
  }

  /** One more package extends exactly the buckets it belongs to. */
  lemma FilledStep(ps: seq<Package>, cm: map<string, Entry>, i: nat)
    requires i < |ps|
    ensures Filled(ps[..i + 1], cm) == PlacedInto(Filled(ps[..i], cm), ps[i], cm)
    ensures !Truthy(ps[i].id) ==> Filled(ps[..i + 1], cm) == Filled(ps[..i], cm)
  {
    var before, after := Filled(ps[..i], cm), Filled(ps[..i + 1], cm);
    assert ps[..i + 1][..i] == ps[..i];
    forall k | k in before ensures after[k] == PlacedInto(before, ps[i], cm)[k] {
    }
    if !Truthy(ps[i].id) {
      forall k | k in before ensures after[k] == before[k] {
        assert before[k].packages + [] == before[k].packages;
      }
    }
  }

  /** Deletes every category bucket left empty. As in the source, a bucket is
      deleted under the key `String(bucket.id)` unless its id is "uncategorized". */
  method PruneEmpty(filled: map<string, Bucket>, keys: seq<string>) returns (result: map<string, Bucket>)
    requires DistinctKeys(keys) && Uncategorized in filled
    requires forall k :: k in keys ==> k in filled
    requires forall k :: k in filled ==> k in keys || k == Uncategorized
    requires forall k :: k in filled ==> ToJsString(filled[k].id) == k
    ensures result == Pruned(filled)
  {
    result := filled;
    for j := 0 to |keys|
      invariant result.Keys <= filled.Keys && Uncategorized in result
      invariant forall k :: k in result ==> result[k] == filled[k]
      invariant forall k :: k in filled ==>
                  (k in result <==> (k in keys[..j] ==> k == Uncategorized || |filled[k].packages| > 0))
    {
      var catId := keys[j];
      assert keys[..j + 1] == keys[..j] + [catId];
      assert catId !in keys[..j];
      var cat := result[catId];
      UncategorizedKey(cat.id);
      if |cat.packages| == 0 && cat.id != Str(Uncategorized) {
        result := result - {ToJsString(cat.id)};
      }
    }
    assert keys[..|keys|] == keys;
  }

  /** The single-category rule. */
  method CollapseSingle(pruned: map<string, Bucket>) returns (result: map<string, Bucket>)
    requires Uncategorized in pruned
    ensures result == Collapsed(pruned)
  {
    result := pruned;
    var validCats := result.Keys - {Uncategorized};
    if |validCats| == 1 && |result[Uncategorized].packages| == 0 {
      var mainCat :| mainCat in validCats;
      assert validCats == {mainCat} by {
        assert |validCats - {mainCat}| == 0;
      }
      result := (result - {Uncategorized})[mainCat := result[mainCat].(name := Str(AllPackagesName), description := Str(AllPackagesDescription))];
    }
  }

  /** `categorizePackages`: builds the category map, places every package,
      drops empty categories and applies the single-category rule. */
  method CategorizePackages(input: PackagesInput, categories: seq<Category>) returns (result: map<string, Bucket>)
    ensures result == Categorized(input, categories)
  {
    var packageArray := PackageList(input);
    if |categories| == 0 {
      return map[Uncategorized := Bucket(Str(Uncategorized), Str(AllPackagesName), Str(AllPackagesDescription), Undefined, packageArray)];
    }
    var categoryMap, keys := BuildCategoryMap(categories);
    var filled := FillBuckets(packageArray, categoryMap, keys);
    var pruned := PruneEmpty(filled, keys);
    result := CollapseSingle(pruned);
  }

  // ---------------------------------------------------------------------
  // Properties of the categoriser's result
  // ---------------------------------------------------------------------

  /** A bucket key survives pruning and collapsing whenever its bucket holds a package. */
  lemma NonEmptyBucketKept(ps: seq<Package>, cs: seq<Category>, k: string, p: Package)
    requires cs != [] && (k == Uncategorized || k in CategoryMap(cs))
    requires p in Members(ps, CategoryMap(cs), k)
    ensures k in Categorized(PackageArray(ps), cs)
  {
    var filled := Filled(ps, CategoryMap(cs));
    var pruned := Pruned(filled);
    assert k in pruned;
    if k == Uncategorized {
      assert |pruned[Uncategorized].packages| > 0;
    } else {
      assert k in pruned.Keys - {Uncategorized};
    }
  }

  /** A package whose id (as a string) a category lists is placed in that
      category, whichever other categories list it too. The category is the
      last one with its key, since a later one with the same key replaces it. */
  lemma PackageInEveryListingCategory(ps: seq<Package>, cs: seq<Category>, p: Package, i: nat)
    requires i < |cs| && p in ps && Truthy(p.id)
    requires ToJsString(p.id) in PackageIds(cs[i].packages)
    requires forall j :: i < j < |cs| ==> CategoryKey(cs[j]) != CategoryKey(cs[i])
    ensures CategoryKey(cs[i]) in Categorized(PackageArray(ps), cs)
    ensures p in Categorized(PackageArray(ps), cs)[CategoryKey(cs[i])].packages
  {
    var cm, k := CategoryMap(cs), CategoryKey(cs[i]);
    CategoryMapEntry(cs, i);
    assert Belongs(p, cm, k);
    MembersIff(ps, cm, k, p);
    NonEmptyBucketKept(ps, cs, k, p);
  }

  /** A package with an id that no category lists goes to the catch-all and nowhere else. */
  lemma UnlistedPackageOnlyInCatchAll(ps: seq<Package>, cs: seq<Category>, p: Package)
    requires cs != [] && p in ps && Truthy(p.id)
    requires forall i :: 0 <= i < |cs| ==> ToJsString(p.id) !in PackageIds(cs[i].packages)
    ensures Uncategorized in Categorized(PackageArray(ps), cs)
    ensures p in Categorized(PackageArray(ps), cs)[Uncategorized].packages
    ensures forall k :: k in Categorized(PackageArray(ps), cs) && k != Uncategorized ==>
              p !in Categorized(PackageArray(ps), cs)[k].packages
  {
    var cm, r := CategoryMap(cs), Categorized(PackageArray(ps), cs);
    forall k | k in cm
      ensures ToJsString(p.id) !in cm[k].ids
    {
      CategoryMapFrom(cs, k);
    }
    assert !MatchesAny(p, cm);
    MembersIff(ps, cm, Uncategorized, p);
    NonEmptyBucketKept(ps, cs, Uncategorized, p);
    forall k | k in r && k != Uncategorized
      ensures p !in r[k].packages
    {
      MembersIff(ps, cm, k, p);
    }
  }

  /** A package without an id lands in no bucket once there are categories. */
  lemma PackageWithoutIdDropped(input: PackagesInput, cs: seq<Category>, p: Package)
    requires cs != [] && !Truthy(p.id)
    ensures forall k :: k in Categorized(input, cs) ==> p !in Categorized(input, cs)[k].packages
  {
    var r := Categorized(input, cs);
    forall k | k in r
      ensures p !in r[k].packages
    {
      MembersIff(PackageList(input), CategoryMap(cs), k, p);
    }
  }

  /** Every bucket lists its packages in their input order. */
  lemma BucketsKeepInputOrder(input: PackagesInput, cs: seq<Category>)
    ensures forall k :: k in Categorized(input, cs) ==> Subseq(Categorized(input, cs)[k].packages, PackageList(input))
  {
    var r := Categorized(input, cs);
    forall k | k in r
      ensures Subseq(r[k].packages, PackageList(input))
    {
      if cs == [] {
        SubseqRefl(PackageList(input));
      } else {
        MembersInOrder(PackageList(input), CategoryMap(cs), k);
      }
    }
  }

  /** The categories (other than under "uncategorized") that receive at least one package. */
  function PopulatedKeys(ps: seq<Package>, cm: map<string, Entry>): set<string> {
    set k | k in cm && k != Uncategorized && Members(ps, cm, k) != []
  }

  /** The packages that have an id, in input order. */
  function WithIds(ps: seq<Package>): seq<Package> {
    if ps == [] then []
    else WithIds(ps[..|ps| - 1]) + (if Truthy(ps[|ps| - 1].id) then [ps[|ps| - 1]] else [])
  }

  lemma {:induction false} MembersAreAllWithIds(ps: seq<Package>, cm: map<string, Entry>, k: string)
    requires forall p :: p in ps ==> (Belongs(p, cm, k) <==> Truthy(p.id))
    ensures Members(ps, cm, k) == WithIds(ps)
  {
    if ps != [] {
      assert forall p :: p in ps[..|ps| - 1] ==> p in ps;
      MembersAreAllWithIds(ps[..|ps| - 1], cm, k);
    }
  }

  /** The catch-all disappears exactly when it is empty and exactly one
      category is populated. */
  lemma CatchAllDroppedIff(ps: seq<Package>, cs: seq<Category>)
    requires cs != []
    ensures var r, cm := Categorized(PackageArray(ps), cs), CategoryMap(cs);
            Uncategorized !in r <==> Members(ps, cm, Uncategorized) == [] && |PopulatedKeys(ps, cm)| == 1
  {
    var cm := CategoryMap(cs);
    PrunedShape(ps, cm);
    assert Categorized(PackageArray(ps), cs) == Collapsed(Pruned(Filled(ps, cm)));
  }

  /** After pruning, the catch-all is still there and the other keys are the populated ones. */
  lemma PrunedShape(ps: seq<Package>, cm: map<string, Entry>)
    ensures Uncategorized in Pruned(Filled(ps, cm))
    ensures Pruned(Filled(ps, cm))[Uncategorized].packages == Members(ps, cm, Uncategorized)
    ensures Pruned(Filled(ps, cm)).Keys - {Uncategorized} == PopulatedKeys(ps, cm)
  {
    var filled := Filled(ps, cm);
    forall k ensures k in Pruned(filled).Keys - {Uncategorized} <==> k in PopulatedKeys(ps, cm) {
      if k in cm && k != Uncategorized {
        assert filled[k].packages == Members(ps, cm, k);
      }
    }
  }

  lemma OnlyElement<T>(s: set<T>) returns (x: T)
    requires |s| == 1
    ensures s == {x}
  {
    x :| x in s;
    assert |s - {x}| == 0;
  }

  /** When the catch-all is dropped, the one remaining bucket is named
      "All Packages" and holds every package that has an id, in input order. */
  lemma CollapsedBucketHoldsAll(ps: seq<Package>, cs: seq<Category>)
    requires cs != []
    ensures var r := Categorized(PackageArray(ps), cs);
            Uncategorized !in r ==>
              |r| == 1 &&
              forall k :: k in r ==> r[k].name == Str(AllPackagesName) && r[k].description == Str(AllPackagesDescription)
                                     && r[k].packages == WithIds(ps)
  {
    var cm, r := CategoryMap(cs), Categorized(PackageArray(ps), cs);
    if Uncategorized !in r {
      var main := CollapsedShape(ps, cs);
      forall p | p in ps
        ensures Belongs(p, cm, main) <==> Truthy(p.id)
      {
        if Truthy(p.id) {
          PlacedSomewhereElse(ps, cm, p, main);
        }
      }
      MembersAreAllWithIds(ps, cm, main);
    }
  }

  /** When the catch-all is gone, one populated category is left and the
      catch-all had received nothing. */
  lemma CollapsedShape(ps: seq<Package>, cs: seq<Category>) returns (main: string)
    requires cs != [] && Uncategorized !in Categorized(PackageArray(ps), cs)
    ensures Categorized(PackageArray(ps), cs).Keys == {main}
    ensures PopulatedKeys(ps, CategoryMap(cs)) == {main}
    ensures Members(ps, CategoryMap(cs), Uncategorized) == []
    ensures Categorized(PackageArray(ps), cs)[main].name == Str(AllPackagesName)
    ensures Categorized(PackageArray(ps), cs)[main].description == Str(AllPackagesDescription)
  {
    var cm := CategoryMap(cs);
    var pruned := Pruned(Filled(ps, cm));
    PrunedShape(ps, cm);
    var r := Categorized(PackageArray(ps), cs);
    assert r == Collapsed(pruned);
    var valid := pruned.Keys - {Uncategorized};
    assert |valid| == 1 && |pruned[Uncategorized].packages| == 0;
    main := OnlyElement(valid);
    assert r == map k | k in valid :: pruned[k].(name := Str(AllPackagesName), description := Str(AllPackagesDescription));
  }

  /** With the catch-all empty and `main` the only populated category, every
      package with an id belongs to `main`. */
  lemma PlacedSomewhereElse(ps: seq<Package>, cm: map<string, Entry>, p: Package, main: string)
    requires p in ps && Truthy(p.id)
    requires Members(ps, cm, Uncategorized) == [] && PopulatedKeys(ps, cm) == {main}
    ensures Belongs(p, cm, main)
  {
    MembersIff(ps, cm, Uncategorized, p);
    var k :| k in cm && ToJsString(p.id) in cm[k].ids;
    MembersIff(ps, cm, k, p);
    assert k in PopulatedKeys(ps, cm);
  }

  // ---------------------------------------------------------------------
  // createDefaultCategories
  // ---------------------------------------------------------------------

  /** `pkg.category && typeof pkg.category === 'string'`. */
  predicate HasCategoryName(p: Package) {
    p.category.Str? && p.category.s != ""
  }

  /** The contents of `categorySet` after the packages `ps` were added, in
      insertion order (a `Set` iterates in insertion order). */
  function SeenCategoryNames(ps: seq<Package>): seq<string> {
    if ps == [] then []
    else
      var names := SeenCategoryNames(ps[..|ps| - 1]);
      var p := ps[|ps| - 1];
      if HasCategoryName(p) && p.category.s !in names then names + [p.category.s] else names
  }

  /** The `forEach` filling `categorySet`. */
  method CollectCategoryNames(ps: seq<Package>) returns (names: seq<string>)
    ensures names == SeenCategoryNames(ps)
  {
    names := [];
    for i := 0 to |ps|
      invariant names == SeenCategoryNames(ps[..i])
    {
      assert ps[..i + 1][..i] == ps[..i];
      if HasCategoryName(ps[i]) && ps[i].category.s !in names {
        names := names + [ps[i].category.s];
      }
    }
    assert ps[..|ps|] == ps;
  }

  /** Names are listed once each, and a name is listed exactly when some package carries it. */
  lemma {:induction false} SeenCategoryNamesSpec(ps: seq<Package>)
    ensures forall a, b :: 0 <= a < b < |SeenCategoryNames(ps)| ==> SeenCategoryNames(ps)[a] != SeenCategoryNames(ps)[b]
    ensures forall name :: name in SeenCategoryNames(ps) <==>
              exists q :: 0 <= q < |ps| && HasCategoryName(ps[q]) && ps[q].category.s == name
  {
    if ps != [] {
      var init := ps[..|ps| - 1];
      SeenCategoryNamesSpec(init);
      assert forall q :: 0 <= q < |init| ==> init[q] == ps[q];
    }
  }

  /** Names come in the order they are first met: every package carrying a
      later name is preceded by a package carrying each earlier name. */
  lemma {:induction false} SeenCategoryNamesOrder(ps: seq<Package>, a: nat, b: nat, q: nat)
    requires a < b < |SeenCategoryNames(ps)| && q < |ps|
    requires ps[q].category == Str(SeenCategoryNames(ps)[b])
    ensures exists r :: 0 <= r < q && ps[r].category == Str(SeenCategoryNames(ps)[a])
  {
    var init := ps[..|ps| - 1];
    var names := SeenCategoryNames(init);
    SeenCategoryNamesSpec(init);
    assert forall j :: 0 <= j < |init| ==> init[j] == ps[j];
    assert forall j :: 0 <= j < |names| ==> SeenCategoryNames(ps)[j] == names[j];
    assert names[a] in names;
    if b < |names| {
      if q < |init| {
        SeenCategoryNamesOrder(init, a, b, q);
      } else {
        assert names[b] in names;
        var q' :| 0 <= q' < |init| && HasCategoryName(init[q']) && init[q'].category.s == names[b];
        SeenCategoryNamesOrder(init, a, b, q');
      }
    } else {
      var r :| 0 <= r < |init| && HasCategoryName(init[r]) && init[r].category.s == names[a];
      assert r < q;
    }
  }

  /** `toLowerCase` on the ASCII letters. */
  function LowerAscii(c: char): char {
    if 'A' <= c <= 'Z' then (c as int + 32) as char else c
  }

  /** The characters JavaScript's `\s` matches. */
  predicate IsJsWhitespace(c: char) {
    var n := c as int;
    (9 <= n <= 13) || n == 0x20 || n == 0xA0 || n == 0x1680 || (0x2000 <= n <= 0x200A)
    || n == 0x2028 || n == 0x2029 || n == 0x202F || n == 0x205F || n == 0x3000 || n == 0xFEFF
  }

  /** `[a-z0-9-]`. */
  predicate IsSlugChar(c: char) {
    ('a' <= c <= 'z') || IsDigit(c) || c == '-'
  }

  function LowerCase(s: string): (r: string)
    ensures |r| == |s| && forall i :: 0 <= i < |s| ==> r[i] == LowerAscii(s[i])
  {
    if s == [] then [] else [LowerAscii(s[0])] + LowerCase(s[1..])
  }

  /** The rest of `s` after its leading whitespace: the end of one `\s+` match. */
  function DropWhitespace(s: string): (r: string)
    ensures |r| <= |s|
    ensures r == [] || !IsJsWhitespace(r[0])
  {
    if s != [] && IsJsWhitespace(s[0]) then DropWhitespace(s[1..]) else s
  }

  /** What is dropped is exactly the leading whitespace: the result is the
      suffix of `s` that starts at its first other character. */
  lemma {:induction false} DropWhitespaceSuffix(s: string)
    ensures var r := DropWhitespace(s);
            r == s[|s| - |r|..] && forall i :: 0 <= i < |s| - |r| ==> IsJsWhitespace(s[i])
  {
    if s != [] && IsJsWhitespace(s[0]) {
      DropWhitespaceSuffix(s[1..]);
      var r := DropWhitespace(s);
      assert r == DropWhitespace(s[1..]);
      assert s[1..][|s| - 1 - |r|..] == s[|s| - |r|..];
      forall i | 1 <= i < |s| - |r| ensures IsJsWhitespace(s[i]) {
        assert s[i] == s[1..][i - 1];
      }
    }
  }

  /** `replace(/\s+/g, '-')`: each run of whitespace becomes one dash. */
  function DashWhitespace(s: string): (r: string)
    ensures |r| <= |s|
    decreases |s|
  {
    if s == [] then []
    else if IsJsWhitespace(s[0]) then "-" + DashWhitespace(DropWhitespace(s[1..]))
    else [s[0]] + DashWhitespace(s[1..])
  }

  /** A whitespace run followed by text that does not start with whitespace
      is dropped whole. */
  lemma {:induction false} DropWhitespaceRun(w: string, t: string)
    requires forall i :: 0 <= i < |w| ==> IsJsWhitespace(w[i])
    requires t == [] || !IsJsWhitespace(t[0])
    ensures DropWhitespace(w + t) == t
  {
    if w != [] {
      assert (w + t)[0] == w[0] && (w + t)[1..] == w[1..] + t;
      DropWhitespaceRun(w[1..], t);
    }
  }

  /** A whole run of whitespace, however long, becomes a single dash. */
  lemma DashWhitespaceRun(w: string, t: string)
    requires w != [] && forall i :: 0 <= i < |w| ==> IsJsWhitespace(w[i])
    requires t == [] || !IsJsWhitespace(t[0])
    ensures DashWhitespace(w + t) == "-" + DashWhitespace(t)
  {
    var s := w + t;
    assert s[0] == w[0] && s[1..] == w[1..] + t;
    forall i | 0 <= i < |w| - 1 ensures IsJsWhitespace(w[1..][i]) {
      assert w[1..][i] == w[i + 1];
    }
    DropWhitespaceRun(w[1..], t);
    assert DashWhitespace(s) == "-" + DashWhitespace(DropWhitespace(s[1..]));
  }

  /** `replace(/[^a-z0-9-]/g, '')`: the allowed characters, all of them, in order. */
  function KeepSlugChars(s: string): (r: string)
    ensures |r| <= |s| && forall i :: 0 <= i < |r| ==> IsSlugChar(r[i])
    ensures Subseq(r, s)
  {
    if s == [] then []
    else
      var rest := KeepSlugChars(s[1..]);
      SubseqPrepend(rest, s[1..], s[0]);
      assert s == [s[0]] + s[1..];
      if IsSlugChar(s[0]) then [s[0]] + rest else rest
  }

  /** The slug-style id derived from a category name. */
  function Slug(name: string): (r: string)
    ensures |r| <= |name|
    ensures forall i :: 0 <= i < |r| ==> IsSlugChar(r[i])
  {
    KeepSlugChars(DashWhitespace(LowerCase(name)))
  }

  /** The whitespace a run skips holds no other character. */
  lemma {:induction false} DropWhitespaceKeepsOthers(s: string, c: char)
    requires !IsJsWhitespace(c)
    ensures multiset(DropWhitespace(s))[c] == multiset(s)[c]
  {
    if s != [] && IsJsWhitespace(s[0]) {
      DropWhitespaceKeepsOthers(s[1..], c);
      assert DropWhitespace(s) == DropWhitespace(s[1..]);
      assert s == [s[0]] + s[1..];
      assert multiset(s) == multiset{s[0]} + multiset(s[1..]);
      assert s[0] != c;
    }
  }

  /** No whitespace is left after the dash replacement. */
  lemma {:induction false} DashWhitespaceLeavesNone(s: string)
    ensures forall i :: 0 <= i < |DashWhitespace(s)| ==> !IsJsWhitespace(DashWhitespace(s)[i])
    decreases |s|
  {
    if s != [] {
      if IsJsWhitespace(s[0]) {
        var t := DropWhitespace(s[1..]);
        DashWhitespaceLeavesNone(t);
        assert DashWhitespace(s) == "-" + DashWhitespace(t);
      } else {
        DashWhitespaceLeavesNone(s[1..]);
        assert DashWhitespace(s) == [s[0]] + DashWhitespace(s[1..]);
      }
    }
  }

  /** Replacing whitespace runs by dashes keeps every other character except
      `-` as often as it occurs. */
  lemma {:induction false} DashWhitespaceKeepsOthers(s: string, c: char)
    requires !IsJsWhitespace(c) && c != '-'
    ensures multiset(DashWhitespace(s))[c] == multiset(s)[c]
    decreases |s|
  {
    if s != [] {
      assert s == [s[0]] + s[1..];
      if IsJsWhitespace(s[0]) {
        var t := DropWhitespace(s[1..]);
        DashWhitespaceKeepsOthers(t, c);
        DropWhitespaceKeepsOthers(s[1..], c);
        assert DashWhitespace(s) == "-" + DashWhitespace(t);
      } else {
        DashWhitespaceKeepsOthers(s[1..], c);
        assert DashWhitespace(s) == [s[0]] + DashWhitespace(s[1..]);
      }
    }
  }

  /** The filter keeps every allowed character as often as it occurs. */
  lemma {:induction false} KeepSlugCharsKeepsAllowed(s: string, c: char)
    requires IsSlugChar(c)
    ensures multiset(KeepSlugChars(s))[c] == multiset(s)[c]
  {
    if s != [] {
      KeepSlugCharsKeepsAllowed(s[1..], c);
      assert s == [s[0]] + s[1..];
    }
  }

  /** Every letter and digit of the lower-cased name survives in the slug,
      as often as it occurs. */
  lemma SlugKeepsLettersAndDigits(name: string, c: char)
    requires ('a' <= c <= 'z') || IsDigit(c)
    ensures multiset(Slug(name))[c] == multiset(LowerCase(name))[c]
  {
    DashWhitespaceKeepsOthers(LowerCase(name), c);
    KeepSlugCharsKeepsAllowed(DashWhitespace(LowerCase(name)), c);
  }

  /** `id || \`category-${index}\``: the slug, or a numbered id when the slug is empty. */
  function DefaultCategoryId(name: string, index: nat): (id: string)
    ensures id != [] && forall i :: 0 <= i < |id| ==> IsSlugChar(id[i])
  {
    var slug := Slug(name);
    if slug != [] then slug else RandomIdPrefix + NatDigits(index)
  }

  lemma {:induction false} KeepSlugCharsEmptyIff(s: string)
    ensures KeepSlugChars(s) == [] <==> forall i :: 0 <= i < |s| ==> !IsSlugChar(s[i])
  {
    if s != [] {
      KeepSlugCharsEmptyIff(s[1..]);
      assert forall i :: 1 <= i < |s| ==> s[i] == s[1..][i - 1];
    }
  }

  lemma {:induction false} KeepSlugCharsIdentity(s: string)
    requires forall i :: 0 <= i < |s| ==> IsSlugChar(s[i])
    ensures KeepSlugChars(s) == s
  {
    if s != [] {
      KeepSlugCharsIdentity(s[1..]);
    }
  }

  /** A string has a character of `[a-z0-9-]`. */
  predicate HasSlugChar(s: string) {
    exists i :: 0 <= i < |s| && IsSlugChar(s[i])
  }

  /** A string has whitespace or a character of `[a-z0-9-]`. */
  predicate HasSpaceOrSlugChar(s: string) {
    exists i :: 0 <= i < |s| && (IsJsWhitespace(s[i]) || IsSlugChar(s[i]))
  }

  /** The dashed string has a slug character exactly when the input has
      whitespace or a slug character. */
  lemma DashWhitespaceSlugChars(s: string)
    ensures HasSlugChar(DashWhitespace(s)) <==> HasSpaceOrSlugChar(s)
  {
    if HasSpaceOrSlugChar(s) {
      DashWhitespaceKeepsSlugChar(s);
    }
    if HasSlugChar(DashWhitespace(s)) {
      DashWhitespaceAddsNoSlugChar(s);
    }
  }

  /** Whitespace or an allowed character in the input leaves an allowed
      character (at least the dash) after the replacement. */
  lemma {:induction false} DashWhitespaceKeepsSlugChar(s: string)
    requires HasSpaceOrSlugChar(s)
    ensures HasSlugChar(DashWhitespace(s))
    decreases |s|
  {
    var d := DashWhitespace(s);
    if IsJsWhitespace(s[0]) {
      assert d[0] == '-';
    } else if IsSlugChar(s[0]) {
      assert d[0] == s[0];
    } else {
      var t := DashWhitespace(s[1..]);
      assert d == [s[0]] + t;
      var i :| 0 <= i < |s| && (IsJsWhitespace(s[i]) || IsSlugChar(s[i]));
      assert s[1..][i - 1] == s[i];
      DashWhitespaceKeepsSlugChar(s[1..]);
      var k :| 0 <= k < |t| && IsSlugChar(t[k]);
      assert d[k + 1] == t[k];
    }
  }

  /** The replacement creates an allowed character only from whitespace
      or from an allowed character already there. */
  lemma {:induction false} DashWhitespaceAddsNoSlugChar(s: string)
    requires HasSlugChar(DashWhitespace(s))
    ensures HasSpaceOrSlugChar(s)
    decreases |s|
  {
    if IsJsWhitespace(s[0]) || IsSlugChar(s[0]) {
      assert 0 < |s|;
    } else {
      var d, t := DashWhitespace(s), DashWhitespace(s[1..]);
      assert d == [s[0]] + t;
      var i :| 0 <= i < |d| && IsSlugChar(d[i]);
      assert t[i - 1] == d[i];
      DashWhitespaceAddsNoSlugChar(s[1..]);
      var k :| 0 <= k < |s[1..]| && (IsJsWhitespace(s[1..][k]) || IsSlugChar(s[1..][k]));
      assert s[k + 1] == s[1..][k];
    }
  }

  /** A name's slug is empty exactly when the name has no whitespace and no
      character that lower-cases into `[a-z0-9-]`. */
  lemma SlugEmptyIff(name: string)
    ensures Slug(name) == [] <==> forall i :: 0 <= i < |name| ==> !IsJsWhitespace(name[i]) && !IsSlugChar(LowerAscii(name[i]))
  {
    var lower := LowerCase(name);
    var d := DashWhitespace(lower);
    KeepSlugCharsEmptyIff(d);
    DashWhitespaceSlugChars(lower);
    if forall i :: 0 <= i < |name| ==> !IsJsWhitespace(name[i]) && !IsSlugChar(LowerAscii(name[i])) {
      forall i | 0 <= i < |lower|
        ensures !IsJsWhitespace(lower[i]) && !IsSlugChar(lower[i])
      {
        assert lower[i] == LowerAscii(name[i]);
      }
    } else {
      var i :| 0 <= i < |name| && (IsJsWhitespace(name[i]) || IsSlugChar(LowerAscii(name[i])));
      assert lower[i] == LowerAscii(name[i]);
      assert IsJsWhitespace(lower[i]) || IsSlugChar(lower[i]);
      var k :| 0 <= k < |d| && IsSlugChar(d[k]);
    }
  }

  /** A name already written in slug characters is its own slug. */
  lemma {:induction false} SlugOfSlug(name: string)
    requires forall i :: 0 <= i < |name| ==> IsSlugChar(name[i])
    ensures Slug(name) == name
  {
    assert LowerCase(name) == name;
    DashWhitespaceIdentity(name);
    KeepSlugCharsIdentity(name);
  }

  lemma {:induction false} DashWhitespaceIdentity(s: string)
    requires forall i :: 0 <= i < |s| ==> !IsJsWhitespace(s[i])
    ensures DashWhitespace(s) == s
  {
    if s != [] {
      DashWhitespaceIdentity(s[1..]);
    }
  }

  /** `packages.filter(pkg => pkg.category === categoryName).map(pkg => pkg.id)`:
      the ids of the packages carrying category `name`, in input order. */
  function PackageIdsNamed(ps: seq<Package>, name: string): seq<PackageRef> {
    if ps == [] then []
    else PackageIdsNamed(ps[..|ps| - 1], name) + (if ps[|ps| - 1].category == Str(name) then [RawRef(ps[|ps| - 1].id)] else [])
  }

  lemma {:induction false} PackageIdsNamedIff(ps: seq<Package>, name: string, id: Scalar)
    ensures RawRef(id) in PackageIdsNamed(ps, name) <==> exists q :: 0 <= q < |ps| && ps[q].category == Str(name) && ps[q].id == id
  {
    if ps != [] {
      var init := ps[..|ps| - 1];
      PackageIdsNamedIff(init, name, id);
      assert forall q :: 0 <= q < |init| ==> init[q] == ps[q];
    }
  }

  /** The id reference of every package, in input order. */
  function IdRefs(ps: seq<Package>): seq<PackageRef> {
    seq(|ps|, i requires 0 <= i < |ps| => RawRef(ps[i].id))
  }

  /** Every package's category paired with its id reference, in input order. */
  function TaggedIdRefs(ps: seq<Package>): seq<(Scalar, PackageRef)> {
    seq(|ps|, i requires 0 <= i < |ps| => (ps[i].category, RawRef(ps[i].id)))
  }

  /** The references `refs`, each paired with the category string `name`. */
  function TaggedAs(name: string, refs: seq<PackageRef>): seq<(Scalar, PackageRef)> {
    seq(|refs|, j requires 0 <= j < |refs| => (Str(name), refs[j]))
  }

  lemma TaggedIdRefsSnoc(ps: seq<Package>)
    requires ps != []
    ensures TaggedIdRefs(ps) == TaggedIdRefs(ps[..|ps| - 1]) + [(ps[|ps| - 1].category, RawRef(ps[|ps| - 1].id))]
  {
  }

  lemma TaggedAsSnoc(name: string, refs: seq<PackageRef>, x: PackageRef)
    ensures TaggedAs(name, refs + [x]) == TaggedAs(name, refs) + [(Str(name), x)]
  {
  }

  /** The positions of the packages carrying category `name`. */
  function NamedPositions(ps: seq<Package>, name: string): set<nat> {
    set q: nat | q < |ps| && ps[q].category == Str(name)
  }

  /** A derived category lists its packages' ids in input order. */
  lemma {:induction false} PackageIdsNamedInOrder(ps: seq<Package>, name: string)
    ensures Subseq(PackageIdsNamed(ps, name), IdRefs(ps))
  {
    if ps != [] {
      var init, last := ps[..|ps| - 1], ps[|ps| - 1];
      var before := PackageIdsNamed(init, name);
      PackageIdsNamedInOrder(init, name);
      assert IdRefs(ps) == IdRefs(init) + [RawRef(last.id)];
      SubseqExtend(before, IdRefs(init), RawRef(last.id));
      if last.category == Str(name) {
        assert PackageIdsNamed(ps, name) == before + [RawRef(last.id)];
      } else {
        assert PackageIdsNamed(ps, name) == before;
      }
    }
  }

  /** Tagged with `name`, a derived category's list is taken, in order, from
      the packages tagged with their own categories, so each entry is the id
      of a package carrying `name`. With `PackageIdsNamedCount` this fixes
      the list even when an id repeats across categories. */
  lemma {:induction false} PackageIdsNamedTaggedInOrder(ps: seq<Package>, name: string)
    ensures Subseq(TaggedAs(name, PackageIdsNamed(ps, name)), TaggedIdRefs(ps))
  {
    if ps != [] {
      var init, last := ps[..|ps| - 1], ps[|ps| - 1];
      var before := PackageIdsNamed(init, name);
      var entry := (last.category, RawRef(last.id));
      PackageIdsNamedTaggedInOrder(init, name);
      TaggedIdRefsSnoc(ps);
      SubseqExtend(TaggedAs(name, before), TaggedIdRefs(init), entry);
      if last.category == Str(name) {
        assert PackageIdsNamed(ps, name) == before + [RawRef(last.id)];
        TaggedAsSnoc(name, before, RawRef(last.id));
      } else {
        assert PackageIdsNamed(ps, name) == before;
      }
    }
  }

  /** A derived category lists one id per package carrying its name. */
  lemma {:induction false} PackageIdsNamedCount(ps: seq<Package>, name: string)
    ensures |PackageIdsNamed(ps, name)| == |NamedPositions(ps, name)|
  {
    if ps != [] {
      var init, last := ps[..|ps| - 1], ps[|ps| - 1];
      PackageIdsNamedCount(init, name);
      assert forall q :: 0 <= q < |init| ==> init[q] == ps[q];
      if last.category == Str(name) {
        assert NamedPositions(ps, name) == NamedPositions(init, name) + {|ps| - 1};
      } else {
        assert NamedPositions(ps, name) == NamedPositions(init, name);
      }
    }
  }

  /** The category record built for the `index`-th name. */
  function DefaultCategory(ps: seq<Package>, name: string, index: nat): (r: Category)
    ensures name != "" ==> Normalized(r) && Truthy(r.description)
    ensures CategoryKey(r) == DefaultCategoryId(name, index) && OrderOf(r) == index
  {
    Category(Str(DefaultCategoryId(name, index)), Str(name), Str(name + " for the Minecraft server"),
             RefArray(PackageIdsNamed(ps, name)), Num(index))
  }

  /** The category list `createDefaultCategories` builds from the collected names. */
  function DefaultCategoryList(ps: seq<Package>): (r: seq<Category>)
    ensures |r| == |SeenCategoryNames(ps)|
    ensures SortedByOrder(r)
    ensures forall i :: 0 <= i < |r| ==> Normalized(r[i]) && Truthy(r[i].description)
  {
    var names := SeenCategoryNames(ps);
    SeenCategoryNamesSpec(ps);
    assert forall i :: 0 <= i < |names| ==> names[i] in names;
    seq(|names|, i requires 0 <= i < |names| => DefaultCategory(ps, names[i], i))
  }

  /** Inserting a category whose order is at least every other's appends it. */
  lemma {:induction false} InsertByOrderAtEnd(c: Category, t: seq<Category>)
    requires forall i :: 0 <= i < |t| ==> OrderOf(t[i]) <= OrderOf(c)
    ensures InsertByOrder(c, t) == t + [c]
  {
    if t != [] {
      InsertByOrderAtEnd(c, t[1..]);
      assert t == [t[0]] + t[1..];
    }
  }

  /** Sorting an already sorted list leaves it as it is. */
  lemma {:induction false} SortByOrderSorted(s: seq<Category>)
    requires SortedByOrder(s)
    ensures SortByOrder(s) == s
  {
    if s != [] {
      var init, last := s[..|s| - 1], s[|s| - 1];
      assert s == init + [last];
      SortedSplitLast(init, last);
      SortByOrderSorted(init);
      InsertByOrderAtEnd(last, init);
      assert s == init + [last];
    }
  }

  /** A sorted list is its sorted front followed by an element no smaller. */
  lemma SortedSplitLast(init: seq<Category>, last: Category)
    requires SortedByOrder(init + [last])
    ensures SortedByOrder(init)
    ensures forall i :: 0 <= i < |init| ==> OrderOf(init[i]) <= OrderOf(last)
  {
    var s := init + [last];
    assert forall i :: 0 <= i < |init| ==> s[i] == init[i];
    assert s[|init|] == last;
  }

  /** A normalised category with a description is left as it is by normalisation. */
  lemma NormalizeKeepsNormalized(c: Category, randomSuffix: string)
    requires Normalized(c) && Truthy(c.description)
    ensures NormalizeCategory(c, randomSuffix) == c
  {
  }

  /** The derived categories, written out as a manifest and read back,
      come back unchanged: every field is already present and the list is
      already in order. */
  lemma DefaultCategoriesRoundTrip(ps: seq<Package>, randomSuffix: nat -> string)
    ensures NormalizeManifest(Manifest(DefaultCategoryList(ps)), randomSuffix) == DefaultCategoryList(ps)
  {
    var cs := DefaultCategoryList(ps);
    if |cs| > 0 {
      var normalized := seq(|cs|, i requires 0 <= i < |cs| => NormalizeCategory(cs[i], randomSuffix(i)));
      forall i | 0 <= i < |cs| ensures normalized[i] == cs[i] {
        NormalizeKeepsNormalized(cs[i], randomSuffix(i));
      }
      assert normalized == cs;
      SortByOrderSorted(cs);
    }
  }

  /** `createDefaultCategories(packages).categories`. */
  method CreateDefaultCategories(ps: seq<Package>) returns (categories: seq<Category>)
    ensures categories == DefaultCategoryList(ps)
    ensures |categories| == |SeenCategoryNames(ps)|
    ensures forall i :: 0 <= i < |categories| ==>
              categories[i].name == Str(SeenCategoryNames(ps)[i]) && categories[i].order == Num(i)
    ensures forall i :: 0 <= i < |categories| ==>
              categories[i].id.Str? && categories[i].id.s != [] && forall j :: 0 <= j < |categories[i].id.s| ==> IsSlugChar(categories[i].id.s[j])
    ensures forall i :: 0 <= i < |categories| ==>
              categories[i].packages == RefArray(PackageIdsNamed(ps, SeenCategoryNames(ps)[i]))
  {
    var names := CollectCategoryNames(ps);
    categories := seq(|names|, i requires 0 <= i < |names| => DefaultCategory(ps, names[i], i));
  }

  /** Feeding the derived categories back to the categoriser places every
      package that has an id and a category name in the bucket of its own
      category, provided no two derived ids coincide. */
  lemma DefaultCategoriesPlaceEveryPackage(ps: seq<Package>, p: Package)
    requires p in ps && Truthy(p.id) && HasCategoryName(p)
    requires var cs := DefaultCategoryList(ps); forall i, j :: 0 <= i < j < |cs| ==> cs[i].id != cs[j].id
    ensures exists i :: 0 <= i < |SeenCategoryNames(ps)| && SeenCategoryNames(ps)[i] == p.category.s &&
              var key := DefaultCategoryId(p.category.s, i);
              key in Categorized(PackageArray(ps), DefaultCategoryList(ps)) &&
              p in Categorized(PackageArray(ps), DefaultCategoryList(ps))[key].packages
  {
    var cs := DefaultCategoryList(ps);
    var i := OwnDefaultCategory(ps, p);
    forall j | i < j < |cs| ensures CategoryKey(cs[j]) != CategoryKey(cs[i]) {
      assert cs[j].id != cs[i].id;
    }
    PackageInEveryListingCategory(ps, cs, p, i);
  }

  /** The derived category carrying a package's own category name lists the package. */
  lemma OwnDefaultCategory(ps: seq<Package>, p: Package) returns (i: nat)
    requires p in ps && HasCategoryName(p)
    ensures i < |SeenCategoryNames(ps)| && SeenCategoryNames(ps)[i] == p.category.s
    ensures DefaultCategoryList(ps)[i].id == Str(DefaultCategoryId(p.category.s, i))
    ensures CategoryKey(DefaultCategoryList(ps)[i]) == DefaultCategoryId(p.category.s, i)
    ensures ToJsString(p.id) in PackageIds(DefaultCategoryList(ps)[i].packages)
  {
    var names, cs := SeenCategoryNames(ps), DefaultCategoryList(ps);
    SeenCategoryNamesSpec(ps);
    var q :| 0 <= q < |ps| && ps[q] == p;
    assert HasCategoryName(ps[q]) && ps[q].category.s == p.category.s;
    assert p.category.s in names;
    i :| 0 <= i < |names| && names[i] == p.category.s;
    assert cs[i] == DefaultCategory(ps, names[i], i);
    PackageIdsNamedIff(ps, p.category.s, p.id);
    assert RefId(RawRef(p.id)) in PackageIds(cs[i].packages);
  }
}
