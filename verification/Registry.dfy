/**
 Applying the Git-managed registry to the database (internal/application/registry.go, SyncRegistry.Execute):
 successive passes over the documents, each resolving slugs against what earlier passes wrote and
 upserting by natural key. A row's identifier is its position, so a fresh one is the length. Columns no
 pass reads are carried together as details.
 */
module Registry {
  import opened Wrappers
  import opened Keyed

  // ---------------------------------------------------------------------------------------------
  // Documents
  // ---------------------------------------------------------------------------------------------

  datatype VendorDoc = VendorDoc(slug: string, details: string)
  datatype CategoryDoc = CategoryDoc(slug: string, details: string, parent: Option<string>)
  datatype FamilyDoc = FamilyDoc(vendor: string, slug: string, details: string)
  datatype ProductDoc = ProductDoc(vendor: string, family: Option<string>, slug: string, details: string)
  datatype SourceDoc = SourceDoc(
    vendor: string, product: Option<string>, slug: string, details: string, health: string, detection: Detection)

  datatype Alias = Alias(text: string, normalized: string, kind: string)
  datatype EdgeDoc = EdgeDoc(kind: string, target: string)

  datatype Document = Document(
    path: string, vendor: Option<VendorDoc>, category: Option<CategoryDoc>, family: Option<FamilyDoc>,
    product: Option<ProductDoc>, aliases: seq<Alias>, relationships: seq<EdgeDoc>, source: Option<SourceDoc>)

  /** The health states there are; no source without one passes validation. */
  const HEALTHS: set<string> := {
    "discovered", "pending_review", "active", "degraded", "rate_limited",
    "authentication_required", "broken", "relocated", "disabled", "retired"}

  /** What each entity's own Validate checks of its details, and which relation kinds are known. */
  datatype Rules = Rules(
    vendor: VendorDoc -> bool, category: CategoryDoc -> bool, family: FamilyDoc -> bool,
    product: ProductDoc -> bool, source: SourceDoc -> bool, kind: string -> bool)

  // ---------------------------------------------------------------------------------------------
  // Rows
  // ---------------------------------------------------------------------------------------------

  /** The state of a source that belongs to the running system. An instant of 0 is Go's zero time. */
  datatype Detection = Detection(
    etag: string, lastModified: string, contentHash: string, lastCheckedAt: int, lastChangedAt: int,
    lastSuccessAt: int, nextCheckAt: int, consecutiveFailures: int, consecutiveUnchanged: int, retryAfterUntil: int)

  datatype Vendor = Vendor(details: string, createdAt: int, updatedAt: int, path: string)
  datatype Category = Category(details: string, parent: Option<nat>, path: string)
  datatype Family = Family(details: string, path: string)
  datatype Edge = Edge(kind: string, target: nat)
  datatype Product = Product(
    vendor: nat, family: Option<nat>, details: string, createdAt: int, updatedAt: int, path: string,
    aliases: seq<Alias>, edges: seq<Edge>)
  datatype Source = Source(product: Option<nat>, details: string, health: string, detection: Detection, path: string)

  datatype Db = Db(
    vendors: seq<Entry<string, Vendor>>, categories: seq<Entry<string, Category>>,
    families: seq<Entry<(nat, string), Family>>, products: seq<Entry<string, Product>>,
    sources: seq<Entry<(nat, string), Source>>)

  // ---------------------------------------------------------------------------------------------
  // What each pass reads in a document, and how it merges with the row that is there
  // ---------------------------------------------------------------------------------------------

  datatype Stated<+D> = Stated(path: string, doc: D)

  function VendorReader(rules: Rules): Document -> Reading<Entry<string, Stated<VendorDoc>>> {
    (d: Document) =>
      if d.vendor.None? then Skip
      else if !rules.vendor(d.vendor.value) then Bad
      else Good(Entry(d.vendor.value.slug, Stated(d.path, d.vendor.value)))
  }

  function VendorMerge(now: int): (Option<Vendor>, Stated<VendorDoc>) -> Vendor {
    (was: Option<Vendor>, s: Stated<VendorDoc>) =>
      Vendor(s.doc.details, if was.Some? then was.value.createdAt else now, now, s.path)
  }

  function CategoryReader(rules: Rules): Document -> Reading<Entry<string, Stated<CategoryDoc>>> {
    (d: Document) =>
      if d.category.None? then Skip
      else if !rules.category(d.category.value) then Bad
      else Good(Entry(d.category.value.slug, Stated(d.path, d.category.value)))
  }

  /** The first category pass clears the parent; the second one sets it. */
  function CategoryMerge(): (Option<Category>, Stated<CategoryDoc>) -> Category {
    (was: Option<Category>, s: Stated<CategoryDoc>) => Category(s.doc.details, None, s.path)
  }

  function ParentReader(categories: seq<Entry<string, Category>>): Document -> Reading<Entry<string, nat>> {
    (d: Document) =>
      if d.category.None? || d.category.value.parent.None? then Skip
      else if d.category.value.slug == d.category.value.parent.value then Bad
      else
        var parent := Find(categories, d.category.value.parent.value);
        if Find(categories, d.category.value.slug).None? || parent.None? then Bad
        else Good(Entry(d.category.value.slug, parent.value))
  }

  function ParentMerge(): (Option<Category>, nat) -> Category {
    (was: Option<Category>, parent: nat) =>
      if was.Some? then was.value.(parent := Some(parent)) else Category("", Some(parent), "")
  }

  function FamilyReader(rules: Rules, vendors: seq<Entry<string, Vendor>>): Document -> Reading<Entry<(nat, string), Stated<FamilyDoc>>> {
    (d: Document) =>
      if d.family.None? then Skip
      else
        var vendor := Find(vendors, d.family.value.vendor);
        if vendor.None? || !rules.family(d.family.value) then Bad
        else Good(Entry((vendor.value, d.family.value.slug), Stated(d.path, d.family.value)))
  }

  function FamilyMerge(): (Option<Family>, Stated<FamilyDoc>) -> Family {
    (was: Option<Family>, s: Stated<FamilyDoc>) => Family(s.doc.details, s.path)
  }

  /** A product document with its references resolved. */
  datatype Resolved = Resolved(vendor: nat, family: Option<nat>, path: string, doc: ProductDoc, aliases: seq<Alias>)

  predicate Mentions(aliases: seq<Alias>, normalized: string) {
    exists i | 0 <= i < |aliases| :: aliases[i].normalized == normalized
  }

  /** The aliases of a document, each normalised form once, the first spelling kept. */
  function Deduped(aliases: seq<Alias>): seq<Alias> {
    if |aliases| == 0 then []
    else
      var n := |aliases| - 1;
      var before := Deduped(aliases[..n]);
      if Mentions(before, aliases[n].normalized) then before else before + [aliases[n]]
  }

  predicate EachOnce(aliases: seq<Alias>) {
    forall i, j | 0 <= i < j < |aliases| :: aliases[i].normalized != aliases[j].normalized
  }

  /** Every normalised form of the list is kept exactly once, and nothing else is. */
  lemma {:induction false} DedupedMeans(aliases: seq<Alias>)
    ensures var r := Deduped(aliases);
      && (forall a | a in r :: a in aliases)
      && (forall n :: Mentions(aliases, n) <==> Mentions(r, n))
      && EachOnce(r)
  {
    hide Mentions;
    if |aliases| > 0 {
      var n := |aliases| - 1;
      var before := Deduped(aliases[..n]);
      DedupedMeans(aliases[..n]);
      assert aliases == aliases[..n] + [aliases[n]];
      forall m ensures Mentions(aliases, m) <==> Mentions(Deduped(aliases), m) {
        MentionsOneMore(aliases[..n], aliases[n], m);
        MentionsOneMore(before, aliases[n], m);
      }
      if !Mentions(before, aliases[n].normalized) { OneMoreOnce(before, aliases[n]); }
    } else {
      assert Deduped(aliases) == aliases;
    }
  }

  /** The alias stands in the list with nothing before it of the same normalised form. */
  ghost predicate ComesFirst(aliases: seq<Alias>, a: Alias) {
    exists j | 0 <= j < |aliases| :: aliases[j] == a && forall k | 0 <= k < j :: aliases[k].normalized != a.normalized
  }

  lemma OneMoreFirst(aliases: seq<Alias>, last: Alias, a: Alias)
    ensures ComesFirst(aliases + [last], a) <==> ComesFirst(aliases, a) || (a == last && !Mentions(aliases, last.normalized))
  {
    var more := aliases + [last];
    assert forall j | 0 <= j < |aliases| :: more[j] == aliases[j];
    if ComesFirst(more, a) {
      var j :| 0 <= j < |more| && more[j] == a && forall k | 0 <= k < j :: more[k].normalized != a.normalized;
      if j < |aliases| { assert aliases[j] == a; }
    }
    if a == last && !Mentions(aliases, last.normalized) { assert more[|aliases|] == a; }
  }

  /** Of the spellings that share a normalised form, the first in the document is kept. */
  lemma {:induction false} DedupedKeepsFirst(aliases: seq<Alias>, a: Alias)
    ensures a in Deduped(aliases) <==> ComesFirst(aliases, a)
  {
    hide Mentions, ComesFirst;
    if |aliases| > 0 {
      var n := |aliases| - 1;
      DedupedKeepsFirst(aliases[..n], a);
      DedupedMeans(aliases[..n]);
      OneMoreFirst(aliases[..n], aliases[n], a);
      assert aliases == aliases[..n] + [aliases[n]];
    } else {
      NothingComesFirst(aliases, a);
    }
  }

  lemma NothingComesFirst(aliases: seq<Alias>, a: Alias)
    requires |aliases| == 0
    ensures !ComesFirst(aliases, a)
  {
  }

  lemma OneMoreOnce(aliases: seq<Alias>, a: Alias)
    requires EachOnce(aliases) && !Mentions(aliases, a.normalized)
    ensures EachOnce(aliases + [a])
  {
  }

  lemma MentionsOneMore(aliases: seq<Alias>, a: Alias, normalized: string)
    ensures Mentions(aliases + [a], normalized) <==> Mentions(aliases, normalized) || a.normalized == normalized
  {
    var more := aliases + [a];
    assert more[|aliases|] == a;
    if Mentions(aliases, normalized) {
      var i :| 0 <= i < |aliases| && aliases[i].normalized == normalized;
      assert more[i] == aliases[i];
    }
  }

  function ProductReader(rules: Rules, vendors: seq<Entry<string, Vendor>>, families: seq<Entry<(nat, string), Family>>)
    : Document -> Reading<Entry<string, Resolved>>
  {
    (d: Document) =>
      if d.product.None? then Skip
      else
        var p := d.product.value;
        var vendor := Find(vendors, p.vendor);
        if vendor.None? || !rules.product(p) then Bad
        else
          var family := if p.family.None? then None else Find(families, (vendor.value, p.family.value));
          if p.family.Some? && family.None? then Bad
          else Good(Entry(p.slug, Resolved(vendor.value, family, d.path, p, Deduped(d.aliases))))
  }

  function ProductMerge(now: int): (Option<Product>, Resolved) -> Product {
    (was: Option<Product>, r: Resolved) =>
      Product(r.vendor, r.family, r.doc.details, if was.Some? then was.value.createdAt else now, now, r.path,
        r.aliases, if was.Some? then was.value.edges else [])
  }

  /** The edges of a document with their targets resolved, or nothing when one is unknown, invalid or to itself. */
  function ResolveEdges(rules: Rules, products: seq<Entry<string, Product>>, from: nat, edges: seq<EdgeDoc>): Option<seq<Edge>> {
    if |edges| == 0 then Some([])
    else
      var n := |edges| - 1;
      var before := ResolveEdges(rules, products, from, edges[..n]);
      var target := Find(products, edges[n].target);
      if before.None? || target.None? || !rules.kind(edges[n].kind) || target.value == from then None
      else Some(before.value + [Edge(edges[n].kind, target.value)])
  }

  function EdgeReader(rules: Rules, products: seq<Entry<string, Product>>): Document -> Reading<Entry<string, seq<Edge>>> {
    (d: Document) =>
      if d.product.None? then (if |d.relationships| > 0 then Bad else Skip)
      else
        var from := Find(products, d.product.value.slug);
        if from.None? then Bad
        else
          var edges := ResolveEdges(rules, products, from.value, d.relationships);
          if edges.None? then Bad else Good(Entry(d.product.value.slug, edges.value))
  }

  function EdgeMerge(): (Option<Product>, seq<Edge>) -> Product {
    (was: Option<Product>, edges: seq<Edge>) =>
      if was.Some? then was.value.(edges := edges) else Product(0, None, "", 0, 0, "", [], edges)
  }

  datatype ResolvedSource = ResolvedSource(product: Option<nat>, path: string, doc: SourceDoc)

  function SourceReader(rules: Rules, vendors: seq<Entry<string, Vendor>>, products: seq<Entry<string, Product>>)
    : Document -> Reading<Entry<(nat, string), ResolvedSource>>
  {
    (d: Document) =>
      if d.source.None? then Skip
      else
        var s := d.source.value;
        var vendor := Find(vendors, s.vendor);
        var product := if s.product.None? then None else Find(products, s.product.value);
        if vendor.None? || (s.product.Some? && product.None?) || !rules.source(s) || s.health !in HEALTHS then Bad
        else Good(Entry((vendor.value, s.slug), ResolvedSource(product, d.path, s)))
  }

  const DISCOVERED := "discovered"

  /** What a source that is there keeps: all its change-detection state, and a health beyond discovered. */
  function SourceMerge(now: int): (Option<Source>, ResolvedSource) -> Source {
    (was: Option<Source>, r: ResolvedSource) =>
      if was.Some? then
        Source(r.product, r.doc.details, if was.value.health != DISCOVERED then was.value.health else r.doc.health,
          was.value.detection, r.path)
      else
        Source(r.product, r.doc.details, if r.doc.health == "" then DISCOVERED else r.doc.health,
          if r.doc.detection.nextCheckAt == 0 then r.doc.detection.(nextCheckAt := now) else r.doc.detection, r.path)
  }

  // ---------------------------------------------------------------------------------------------
  // The passes
  // ---------------------------------------------------------------------------------------------

  /** One pass: every document read against the tables so far, every declaration upserted. */
  function Pass<K(==), V, D>(t: seq<Entry<K, V>>, docs: seq<Document>, read: Document -> Reading<Entry<K, D>>,
                             merge: (Option<V>, D) -> V): Option<seq<Entry<K, V>>>
  {
    var ds := Gather(docs, read);
    if ds.None? then None else Some(PutAll(t, ds.value, merge))
  }

  /** SyncRegistry.Execute. A failure is reported as None; what it leaves half done is not described. */
  function Sync(db: Db, rules: Rules, docs: seq<Document>, now: int): Option<Db> {
    var vendors := Pass(db.vendors, docs, VendorReader(rules), VendorMerge(now));
    if vendors.None? then None else
    var cleared := Pass(db.categories, docs, CategoryReader(rules), CategoryMerge());
    if cleared.None? then None else
    var categories := Pass(cleared.value, docs, ParentReader(cleared.value), ParentMerge());
    if categories.None? then None else
    var families := Pass(db.families, docs, FamilyReader(rules, vendors.value), FamilyMerge());
    if families.None? then None else
    var listed := Pass(db.products, docs, ProductReader(rules, vendors.value, families.value), ProductMerge(now));
    if listed.None? then None else
    var products := Pass(listed.value, docs, EdgeReader(rules, listed.value), EdgeMerge());
    if products.None? then None else
    var sources := Pass(db.sources, docs, SourceReader(rules, vendors.value, products.value), SourceMerge(now));
    if sources.None? then None else
    Some(Db(vendors.value, categories.value, families.value, products.value, sources.value))
  }

  // ---------------------------------------------------------------------------------------------
  // The database seen by slug
  // ---------------------------------------------------------------------------------------------

  function KeyAt<K, V>(t: seq<Entry<K, V>>, i: nat): Option<K> {
    if i < |t| then Some(t[i].key) else None
  }

  datatype VendorSeen = VendorSeen(details: string, createdAt: int, path: string)
  datatype CategorySeen = CategorySeen(details: string, parent: Option<string>, path: string)
  datatype EdgeSeen = EdgeSeen(kind: string, target: Option<string>)
  datatype ProductSeen = ProductSeen(
    vendor: Option<string>, family: Option<string>, details: string, createdAt: int, path: string,
    aliases: seq<Alias>, edges: seq<EdgeSeen>)
  datatype SourceSeen = SourceSeen(product: Option<string>, details: string, health: string, detection: Detection, path: string)

  function SeeVendor(db: Db, slug: string): Option<VendorSeen> {
    var v := Get(db.vendors, slug);
    if v.None? then None else Some(VendorSeen(v.value.details, v.value.createdAt, v.value.path))
  }

  function SeeCategory(db: Db, slug: string): Option<CategorySeen> {
    var c := Get(db.categories, slug);
    if c.None? then None
    else Some(CategorySeen(c.value.details, if c.value.parent.None? then None else KeyAt(db.categories, c.value.parent.value), c.value.path))
  }

  function SeeFamily(db: Db, vendor: string, slug: string): Option<Family> {
    var v := Find(db.vendors, vendor);
    if v.None? then None else Get(db.families, (v.value, slug))
  }

  /** A family by identifier, as the slug it has within its vendor. */
  function FamilySlug(db: Db, i: nat): Option<string> {
    if i < |db.families| then Some(db.families[i].key.1) else None
  }

  function SeeEdges(db: Db, edges: seq<Edge>): (r: seq<EdgeSeen>)
    ensures |r| == |edges|
  {
    seq(|edges|, i requires 0 <= i < |edges| => EdgeSeen(edges[i].kind, KeyAt(db.products, edges[i].target)))
  }

  function SeeProduct(db: Db, slug: string): Option<ProductSeen> {
    var p := Get(db.products, slug);
    if p.None? then None
    else Some(ProductSeen(KeyAt(db.vendors, p.value.vendor),
      if p.value.family.None? then None else FamilySlug(db, p.value.family.value),
      p.value.details, p.value.createdAt, p.value.path, p.value.aliases, SeeEdges(db, p.value.edges)))
  }

  function SeeSource(db: Db, vendor: string, slug: string): Option<SourceSeen> {
    var v := Find(db.vendors, vendor);
    if v.None? then None
    else
      var s := Get(db.sources, (v.value, slug));
      if s.None? then None
      else Some(SourceSeen(if s.value.product.None? then None else KeyAt(db.products, s.value.product.value),
        s.value.details, s.value.health, s.value.detection, s.value.path))
  }

  /** Two databases a reader who goes by slugs cannot tell apart. */
  ghost predicate SameBySlug(a: Db, b: Db) {
    && (forall slug :: SeeVendor(a, slug) == SeeVendor(b, slug))
    && (forall slug :: SeeCategory(a, slug) == SeeCategory(b, slug))
    && (forall vendor, slug :: SeeFamily(a, vendor, slug) == SeeFamily(b, vendor, slug))
    && (forall slug :: SeeProduct(a, slug) == SeeProduct(b, slug))
    && (forall vendor, slug :: SeeSource(a, vendor, slug) == SeeSource(b, vendor, slug))
  }

  /** Natural keys are unique and references are to rows that exist. */
  ghost predicate Sound(db: Db) {
    && Distinct(db.vendors) && Distinct(db.categories) && Distinct(db.families) && Distinct(db.products) && Distinct(db.sources)
    && (forall e | e in db.categories :: e.value.parent.Some? ==> e.value.parent.value < |db.categories|)
    && (forall e | e in db.families :: e.key.0 < |db.vendors|)
    && (forall e | e in db.products :: ProductSound(db, e.value))
    && (forall e | e in db.sources :: e.key.0 < |db.vendors| && (e.value.product.Some? ==> e.value.product.value < |db.products|))
  }

  ghost predicate ProductSound(db: Db, p: Product) {
    && p.vendor < |db.vendors| && (p.family.Some? ==> p.family.value < |db.families|)
    && forall edge | edge in p.edges :: edge.target < |db.products|
  }

  /** No two documents declare the same vendor, category, family, product or source. */
  ghost predicate OneEach(docs: seq<Document>) {
    forall i, j | 0 <= i < j < |docs| :: Apart(docs[i], docs[j])
  }

  predicate Apart(d: Document, e: Document) {
    && (d.vendor.Some? && e.vendor.Some? ==> d.vendor.value.slug != e.vendor.value.slug)
    && (d.category.Some? && e.category.Some? ==> d.category.value.slug != e.category.value.slug)
    && (d.family.Some? && e.family.Some? ==> (d.family.value.vendor, d.family.value.slug) != (e.family.value.vendor, e.family.value.slug))
    && (d.product.Some? && e.product.Some? ==> d.product.value.slug != e.product.value.slug)
    && (d.source.Some? && e.source.Some? ==> (d.source.value.vendor, d.source.value.slug) != (e.source.value.vendor, e.source.value.slug))
  }

  // ---------------------------------------------------------------------------------------------
  // One pass
  // ---------------------------------------------------------------------------------------------

  /** A pass succeeds exactly when no document is bad to it. */
  lemma PassSucceedsIff<K, V, D>(t: seq<Entry<K, V>>, docs: seq<Document>, read: Document -> Reading<Entry<K, D>>, merge: (Option<V>, D) -> V)
    ensures Pass(t, docs, read, merge).Some? <==> forall d | d in docs :: !read(d).Bad?
  {
    GatherMeans(docs, read);
  }

  /** What a pass reads, in order. */
  function Read<K, D>(docs: seq<Document>, read: Document -> Reading<Entry<K, D>>): seq<Entry<K, D>>
    requires Gather(docs, read).Some?
  {
    Gather(docs, read).value
  }

  /**
   What a pass leaves of a key, whatever the documents repeat: its upserts folded into what was there. A
   key no document is read with keeps its row, and the keys are those there were and those read.
   */
  lemma PassKeys<K, V, D>(t: seq<Entry<K, V>>, docs: seq<Document>, read: Document -> Reading<Entry<K, D>>, merge: (Option<V>, D) -> V, k: K)
    requires Distinct(t) && Pass(t, docs, read, merge).Some?
    ensures Gather(docs, read).Some?
    ensures var next := Pass(t, docs, read, merge).value;
      && Distinct(next) && Extends(t, next)
      && Get(next, k) == Fold(Get(t, k), Read(docs, read), merge, k)
      && ((forall d, e | d in docs :: read(d) != Good(Entry(k, e))) ==> Get(next, k) == Get(t, k))
      && (Find(next, k).Some? <==> Find(t, k).Some? || exists d, e :: d in docs && read(d) == Good(Entry(k, e)))
  {
    hide Find, Get, PutAll, Gather, Fold, Last;
    var ds := Gather(docs, read).value;
    PutAllFolds(t, ds, merge, k);
    FoldedIsThere(Get(t, k), ds, merge, k);
    ReadUnder(docs, read, k);
    FoundIsGot(Pass(t, docs, read, merge).value, k);
    FoundIsGot(t, k);
  }

  lemma ReadUnder<K, D>(docs: seq<Document>, read: Document -> Reading<Entry<K, D>>, k: K)
    requires Gather(docs, read).Some?
    ensures Last(Gather(docs, read).value, k).Some? <==> exists d, e :: d in docs && read(d) == Good(Entry(k, e))
  {
    hide Gather, Last;
    var ds := Gather(docs, read).value;
    GatherMeans(docs, read);
    LastIsDeclared(ds, k);
    if Last(ds, k).Some? {
      var e := Entry(k, Last(ds, k).value);
      assert e in ds;
      var d :| d in docs && read(d) == Good(e);
    }
    if d, e :| d in docs && read(d) == Good(Entry(k, e)) {
      assert Entry(k, e) in ds;
    }
  }

  /** Where each key is declared once: the declaration read with it merged in, or what was there. */
  lemma PassMeans<K, V, D>(t: seq<Entry<K, V>>, docs: seq<Document>, read: Document -> Reading<Entry<K, D>>, merge: (Option<V>, D) -> V, k: K)
    requires Distinct(t) && ReadOnce(docs, read) && Pass(t, docs, read, merge).Some?
    ensures var next := Pass(t, docs, read, merge).value;
      && Distinct(next) && Extends(t, next)
      && (forall d, e | d in docs && read(d) == Good(Entry(k, e)) :: Get(next, k) == Some(merge(Get(t, k), e)))
      && ((forall d, e | d in docs :: read(d) != Good(Entry(k, e))) ==> Get(next, k) == Get(t, k))
      && (Find(next, k).Some? <==> Find(t, k).Some? || exists d, e :: d in docs && read(d) == Good(Entry(k, e)))
  {
    hide Find, Get, PutAll, Gather;
    var ds := Gather(docs, read).value;
    GatheredUnder(docs, read, k);
    PutAllMeans(t, ds, merge, k);
    PassKeys(t, docs, read, merge, k);
  }

  lemma FoundIsGot<K, V>(t: seq<Entry<K, V>>, k: K)
    ensures Find(t, k).Some? <==> Get(t, k).Some?
    ensures Get(t, k).Some? ==> t[Find(t, k).value].value == Get(t, k).value
  {
  }

  // ---------------------------------------------------------------------------------------------
  // Distinct documents are read once by every pass
  // ---------------------------------------------------------------------------------------------

  lemma VendorsReadOnce(rules: Rules, docs: seq<Document>)
    requires OneEach(docs)
    ensures ReadOnce(docs, VendorReader(rules))
  {
    forall i, j | 0 <= i < j < |docs| ensures Apart(docs[i], docs[j]) {}
  }

  lemma CategoriesReadOnce(rules: Rules, docs: seq<Document>, categories: seq<Entry<string, Category>>)
    requires OneEach(docs)
    ensures ReadOnce(docs, CategoryReader(rules)) && ReadOnce(docs, ParentReader(categories))
  {
    hide Find;
    forall i, j | 0 <= i < j < |docs| ensures Apart(docs[i], docs[j]) {}
  }

  lemma FamiliesReadOnce(rules: Rules, docs: seq<Document>, vendors: seq<Entry<string, Vendor>>)
    requires OneEach(docs)
    ensures ReadOnce(docs, FamilyReader(rules, vendors))
  {
    hide Find;
    forall i, j | 0 <= i < j < |docs| ensures Apart(docs[i], docs[j]) {}
  }

  lemma ProductsReadOnce(rules: Rules, docs: seq<Document>, vendors: seq<Entry<string, Vendor>>,
                         families: seq<Entry<(nat, string), Family>>, products: seq<Entry<string, Product>>)
    requires OneEach(docs)
    ensures ReadOnce(docs, ProductReader(rules, vendors, families)) && ReadOnce(docs, EdgeReader(rules, products))
  {
    hide Find, ResolveEdges;
    forall i, j | 0 <= i < j < |docs| ensures Apart(docs[i], docs[j]) {}
  }

  lemma SourcesReadOnce(rules: Rules, docs: seq<Document>, vendors: seq<Entry<string, Vendor>>, products: seq<Entry<string, Product>>)
    requires OneEach(docs)
    ensures ReadOnce(docs, SourceReader(rules, vendors, products))
  {
    hide Find;
    forall i, j | 0 <= i < j < |docs| ensures Apart(docs[i], docs[j]) {}
  }

  // ---------------------------------------------------------------------------------------------
  // The tables a sync goes through
  // ---------------------------------------------------------------------------------------------

  /** The tables between the passes: categories before their parents are set, products before their edges are. */
  datatype Stages = Stages(
    vendors: seq<Entry<string, Vendor>>, cleared: seq<Entry<string, Category>>, categories: seq<Entry<string, Category>>,
    families: seq<Entry<(nat, string), Family>>, listed: seq<Entry<string, Product>>, products: seq<Entry<string, Product>>,
    sources: seq<Entry<(nat, string), Source>>)

  ghost predicate Staged(db: Db, rules: Rules, docs: seq<Document>, now: int, s: Stages) {
    && Pass(db.vendors, docs, VendorReader(rules), VendorMerge(now)) == Some(s.vendors)
    && Pass(db.categories, docs, CategoryReader(rules), CategoryMerge()) == Some(s.cleared)
    && Pass(s.cleared, docs, ParentReader(s.cleared), ParentMerge()) == Some(s.categories)
    && Pass(db.families, docs, FamilyReader(rules, s.vendors), FamilyMerge()) == Some(s.families)
    && Pass(db.products, docs, ProductReader(rules, s.vendors, s.families), ProductMerge(now)) == Some(s.listed)
    && Pass(s.listed, docs, EdgeReader(rules, s.listed), EdgeMerge()) == Some(s.products)
    && Pass(db.sources, docs, SourceReader(rules, s.vendors, s.products), SourceMerge(now)) == Some(s.sources)
  }

  lemma StagesOf(db: Db, rules: Rules, docs: seq<Document>, now: int) returns (s: Stages)
    requires Sync(db, rules, docs, now).Some?
    ensures Staged(db, rules, docs, now, s)
    ensures Sync(db, rules, docs, now) == Some(Db(s.vendors, s.categories, s.families, s.products, s.sources))
  {
    hide Pass, VendorReader, VendorMerge, CategoryReader, CategoryMerge, ParentReader, ParentMerge, FamilyReader, FamilyMerge,
      ProductReader, ProductMerge, EdgeReader, EdgeMerge, SourceReader, SourceMerge;
    var vendors := Pass(db.vendors, docs, VendorReader(rules), VendorMerge(now)).value;
    var cleared := Pass(db.categories, docs, CategoryReader(rules), CategoryMerge()).value;
    var categories := Pass(cleared, docs, ParentReader(cleared), ParentMerge()).value;
    var families := Pass(db.families, docs, FamilyReader(rules, vendors), FamilyMerge()).value;
    var listed := Pass(db.products, docs, ProductReader(rules, vendors, families), ProductMerge(now)).value;
    var products := Pass(listed, docs, EdgeReader(rules, listed), EdgeMerge()).value;
    var sources := Pass(db.sources, docs, SourceReader(rules, vendors, products), SourceMerge(now)).value;
    s := Stages(vendors, cleared, categories, families, listed, products, sources);
  }

  /** Every table only grows, keeps its natural keys unique, and keeps each key where it is. */
  ghost predicate Grown(db: Db, s: Stages) {
    && Distinct(s.vendors) && Extends(db.vendors, s.vendors)
    && Distinct(s.cleared) && Extends(db.categories, s.cleared)
    && Distinct(s.categories) && Extends(s.cleared, s.categories)
    && Distinct(s.families) && Extends(db.families, s.families)
    && Distinct(s.listed) && Extends(db.products, s.listed)
    && Distinct(s.products) && Extends(s.listed, s.products)
    && Distinct(s.sources) && Extends(db.sources, s.sources)
  }

  lemma StagesGrow(db: Db, rules: Rules, docs: seq<Document>, now: int, s: Stages)
    requires Sound(db) && Staged(db, rules, docs, now, s)
    ensures Grown(db, s)
  {
    hide Pass, VendorReader, VendorMerge, CategoryReader, CategoryMerge, ParentReader, ParentMerge, FamilyReader, FamilyMerge,
      ProductReader, ProductMerge, EdgeReader, EdgeMerge, SourceReader, SourceMerge, Find, Get, Distinct, Extends;
    PassKeys(db.vendors, docs, VendorReader(rules), VendorMerge(now), "");
    PassKeys(db.categories, docs, CategoryReader(rules), CategoryMerge(), "");
    PassKeys(s.cleared, docs, ParentReader(s.cleared), ParentMerge(), "");
    PassKeys(db.families, docs, FamilyReader(rules, s.vendors), FamilyMerge(), (0, ""));
    PassKeys(db.products, docs, ProductReader(rules, s.vendors, s.families), ProductMerge(now), "");
    PassKeys(s.listed, docs, EdgeReader(rules, s.listed), EdgeMerge(), "");
    PassKeys(db.sources, docs, SourceReader(rules, s.vendors, s.products), SourceMerge(now), (0, ""));
  }

  /** What is there after a sync. */
  function After(s: Stages): Db { Db(s.vendors, s.categories, s.families, s.products, s.sources) }

  // ---------------------------------------------------------------------------------------------
  // What a sync leaves, seen by slug
  // ---------------------------------------------------------------------------------------------

  predicate NoVendor(docs: seq<Document>, slug: string) {
    forall d | d in docs :: d.vendor.None? || d.vendor.value.slug != slug
  }

  predicate NoCategory(docs: seq<Document>, slug: string) {
    forall d | d in docs :: d.category.None? || d.category.value.slug != slug
  }

  predicate NoFamily(docs: seq<Document>, vendor: string, slug: string) {
    forall d | d in docs :: d.family.None? || d.family.value.vendor != vendor || d.family.value.slug != slug
  }

  predicate NoProduct(docs: seq<Document>, slug: string) {
    forall d | d in docs :: d.product.None? || d.product.value.slug != slug
  }

  predicate NoSource(docs: seq<Document>, vendor: string, slug: string) {
    forall d | d in docs :: d.source.None? || d.source.value.vendor != vendor || d.source.value.slug != slug
  }

  /** A vendor reads as its document says, created when it first was; one no document declares is as it was. */
  lemma VendorAfter(db: Db, rules: Rules, docs: seq<Document>, now: int, s: Stages, slug: string)
    requires Sound(db) && OneEach(docs) && Staged(db, rules, docs, now, s)
    ensures forall d | d in docs && d.vendor.Some? && d.vendor.value.slug == slug ::
      SeeVendor(After(s), slug) == Some(VendorSeen(d.vendor.value.details,
        if SeeVendor(db, slug).Some? then SeeVendor(db, slug).value.createdAt else now, d.path))
    ensures NoVendor(docs, slug) ==> SeeVendor(After(s), slug) == SeeVendor(db, slug)
    ensures Find(s.vendors, slug).Some? <==> Find(db.vendors, slug).Some? || !NoVendor(docs, slug)
  {
    hide Pass, Find, ReadOnce, Get, Gather, Distinct;
    VendorsReadOnce(rules, docs);
    PassMeans(db.vendors, docs, VendorReader(rules), VendorMerge(now), slug);
    PassSucceedsIff(db.vendors, docs, VendorReader(rules), VendorMerge(now));
    forall d | d in docs && d.vendor.Some? && d.vendor.value.slug == slug
      ensures VendorReader(rules)(d) == Good(Entry(slug, Stated(d.path, d.vendor.value))) {}
  }

  /** A declared vendor is stamped with the time of the sync; any other keeps its stamp. */
  lemma VendorIsStamped(db: Db, rules: Rules, docs: seq<Document>, now: int, s: Stages, slug: string)
    requires Sound(db) && Staged(db, rules, docs, now, s)
    ensures Get(s.vendors, slug).Some? && !NoVendor(docs, slug) ==> Get(s.vendors, slug).value.updatedAt == now
    ensures NoVendor(docs, slug) ==> Get(s.vendors, slug) == Get(db.vendors, slug)
  {
    hide Find, Get, Gather, Distinct, PutAll, Fold, Last;
    SoundIsDistinct(db);
    PassKeys(db.vendors, docs, VendorReader(rules), VendorMerge(now), slug);
    ReadUnder(docs, VendorReader(rules), slug);
    GatherMeans(docs, VendorReader(rules));
    MergesAbsorb(now);
    LastWins(Get(db.vendors, slug), Read(docs, VendorReader(rules)), VendorMerge(now), slug);
    if !NoVendor(docs, slug) {
      var d :| d in docs && d.vendor.Some? && d.vendor.value.slug == slug;
      assert VendorReader(rules)(d) == Good(Entry(slug, Stated(d.path, d.vendor.value)));
    }
  }

  /** The families of a vendor, likewise. */
  lemma FamilyAfter(db: Db, rules: Rules, docs: seq<Document>, now: int, s: Stages, vendor: string, slug: string)
    requires Sound(db) && OneEach(docs) && Staged(db, rules, docs, now, s)
    ensures forall d | d in docs && d.family.Some? && d.family.value.vendor == vendor && d.family.value.slug == slug ::
      SeeFamily(After(s), vendor, slug) == Some(Family(d.family.value.details, d.path))
    ensures NoFamily(docs, vendor, slug) ==> SeeFamily(After(s), vendor, slug) == SeeFamily(db, vendor, slug)
  {
    hide Pass, Find, Get, ReadOnce, Distinct;
    FamiliesReadOnce(rules, docs, s.vendors);
    StagesGrow(db, rules, docs, now, s);
    FoundStays(db.vendors, s.vendors, vendor);
    PassSucceedsIff(db.families, docs, FamilyReader(rules, s.vendors), FamilyMerge());
    if Find(s.vendors, vendor).Some? {
      var k := (Find(s.vendors, vendor).value, slug);
      PassMeans(db.families, docs, FamilyReader(rules, s.vendors), FamilyMerge(), k);
      if Find(db.vendors, vendor).None? { NoFamilyYet(db, k); }
    }
  }

  lemma NoFamilyYet(db: Db, k: (nat, string))
    requires Sound(db) && k.0 >= |db.vendors|
    ensures Get(db.families, k) == None
  {
    assert Find(db.families, k).None?;
  }

  /** What the first category pass leaves: the declaration, without its parent. */
  lemma CategoryCleared(db: Db, rules: Rules, docs: seq<Document>, now: int, s: Stages, slug: string, d: Document)
    requires Sound(db) && OneEach(docs) && Staged(db, rules, docs, now, s)
    requires d in docs && d.category.Some? && d.category.value.slug == slug
    ensures Get(s.cleared, slug) == Some(Category(d.category.value.details, None, d.path))
  {
    hide Pass, Find, Get, ReadOnce, Distinct, OneEach, Sound;
    CategoriesReadOnce(rules, docs, s.cleared);
    SoundIsDistinct(db);
    PassMeans(db.categories, docs, CategoryReader(rules), CategoryMerge(), slug);
    PassSucceedsIff(db.categories, docs, CategoryReader(rules), CategoryMerge());
    assert CategoryReader(rules)(d) == Good(Entry(slug, Stated(d.path, d.category.value)));
  }

  /** What the second pass makes of it: the parent the document names, if it names one. */
  lemma CategoryLinked(db: Db, rules: Rules, docs: seq<Document>, now: int, s: Stages, slug: string, d: Document)
    requires Sound(db) && OneEach(docs) && Staged(db, rules, docs, now, s)
    requires d in docs && d.category.Some? && d.category.value.slug == slug && Get(s.cleared, slug).Some?
    ensures var c := d.category.value;
      if c.parent.None? then Get(s.categories, slug) == Get(s.cleared, slug)
      else
        var parent := Find(s.cleared, c.parent.value);
        parent.Some? && Get(s.categories, slug) == Some(Get(s.cleared, slug).value.(parent := parent))
  {
    hide Pass, Find, Get, ReadOnce, Distinct, OneEach, Sound;
    var c := d.category.value;
    CategoriesReadOnce(rules, docs, s.cleared);
    StagesGrow(db, rules, docs, now, s);
    PassMeans(s.cleared, docs, ParentReader(s.cleared), ParentMerge(), slug);
    PassSucceedsIff(s.cleared, docs, ParentReader(s.cleared), ParentMerge());
    if c.parent.Some? {
      assert !ParentReader(s.cleared)(d).Bad?;
      var parent := Find(s.cleared, c.parent.value).value;
      assert ParentReader(s.cleared)(d) == Good(Entry(slug, parent));
    } else {
      OnlyItsDocument(docs, d, slug, s.cleared);
    }
  }

  lemma UndeclaredCategory(db: Db, rules: Rules, docs: seq<Document>, now: int, s: Stages, slug: string)
    requires Sound(db) && OneEach(docs) && Staged(db, rules, docs, now, s) && NoCategory(docs, slug)
    ensures SeeCategory(After(s), slug) == SeeCategory(db, slug)
  {
    hide Pass, Find, Get, ReadOnce, Distinct, OneEach, Sound;
    CategoriesReadOnce(rules, docs, s.cleared);
    StagesGrow(db, rules, docs, now, s);
    SoundIsDistinct(db);
    PassMeans(db.categories, docs, CategoryReader(rules), CategoryMerge(), slug);
    PassMeans(s.cleared, docs, ParentReader(s.cleared), ParentMerge(), slug);
    if Get(db.categories, slug).Some? { OldParentStays(db, slug); }
  }

  /** A category reads as its document says, its parent by slug; one no document declares is as it was. */
  lemma CategoryAfter(db: Db, rules: Rules, docs: seq<Document>, now: int, s: Stages, slug: string)
    requires Sound(db) && OneEach(docs) && Staged(db, rules, docs, now, s)
    ensures forall d | d in docs && d.category.Some? && d.category.value.slug == slug ::
      SeeCategory(After(s), slug) == Some(CategorySeen(d.category.value.details, d.category.value.parent, d.path))
    ensures NoCategory(docs, slug) ==> SeeCategory(After(s), slug) == SeeCategory(db, slug)
  {
    hide Find, Get, Distinct, OneEach, Sound, Staged;
    StagesGrow(db, rules, docs, now, s);
    forall d | d in docs && d.category.Some? && d.category.value.slug == slug
      ensures SeeCategory(After(s), slug) == Some(CategorySeen(d.category.value.details, d.category.value.parent, d.path))
    {
      CategoryCleared(db, rules, docs, now, s, slug, d);
      CategoryLinked(db, rules, docs, now, s, slug, d);
    }
    if NoCategory(docs, slug) { UndeclaredCategory(db, rules, docs, now, s, slug); }
  }

  /** A category without a parent is not read by the parent pass. */
  lemma OnlyItsDocument(docs: seq<Document>, d: Document, slug: string, categories: seq<Entry<string, Category>>)
    requires OneEach(docs) && d in docs && d.category.Some? && d.category.value.slug == slug && d.category.value.parent.None?
    ensures forall x, e | x in docs :: ParentReader(categories)(x) != Good(Entry(slug, e))
  {
    hide Find;
    var i :| 0 <= i < |docs| && docs[i] == d;
    forall x, e | x in docs ensures ParentReader(categories)(x) != Good(Entry(slug, e)) {
      var j :| 0 <= j < |docs| && docs[j] == x;
      if i < j { assert Apart(docs[i], docs[j]); }
      if j < i { assert Apart(docs[j], docs[i]); }
    }
  }

  lemma OldParentStays(db: Db, slug: string)
    requires Sound(db) && Get(db.categories, slug).Some?
    ensures var c := Get(db.categories, slug).value; c.parent.Some? ==> c.parent.value < |db.categories|
  {
    assert db.categories[Find(db.categories, slug).value] in db.categories;
  }

  // ---------------------------------------------------------------------------------------------
  // Products
  // ---------------------------------------------------------------------------------------------

  function EdgesStated(edges: seq<EdgeDoc>): (r: seq<EdgeSeen>)
    ensures |r| == |edges|
  {
    seq(|edges|, i requires 0 <= i < |edges| => EdgeSeen(edges[i].kind, Some(edges[i].target)))
  }

  /** Edges are resolved exactly when every kind and target is known and none points back; they then read as stated. */
  lemma {:induction false} ResolvingEdges(rules: Rules, products: seq<Entry<string, Product>>, from: nat, edges: seq<EdgeDoc>)
    requires Distinct(products) && from < |products|
    ensures ResolveEdges(rules, products, from, edges).Some? <==>
      forall e | e in edges :: Find(products, e.target).Some? && rules.kind(e.kind) && e.target != products[from].key
    ensures ResolveEdges(rules, products, from, edges).Some? ==>
      var r := ResolveEdges(rules, products, from, edges).value;
      |r| == |edges| && forall i | 0 <= i < |r| ::
        r[i].kind == edges[i].kind && r[i].target < |products| && products[r[i].target].key == edges[i].target
  {
    if |edges| > 0 {
      var n := |edges| - 1;
      ResolvingEdges(rules, products, from, edges[..n]);
      assert edges == edges[..n] + [edges[n]];
      FoundOnlyThere(products, from);
    }
  }

  /** What the product pass alone leaves of a declared product. */
  lemma ProductListed(db: Db, rules: Rules, docs: seq<Document>, now: int, s: Stages, slug: string, d: Document)
    requires Sound(db) && OneEach(docs) && Staged(db, rules, docs, now, s)
    requires d in docs && d.product.Some? && d.product.value.slug == slug
    ensures var p := d.product.value;
      var was := Get(db.products, slug);
      && Find(s.vendors, p.vendor).Some?
      && (p.family.Some? ==> Find(s.families, (Find(s.vendors, p.vendor).value, p.family.value)).Some?)
      && Get(s.listed, slug) == Some(Product(Find(s.vendors, p.vendor).value,
           if p.family.None? then None else Find(s.families, (Find(s.vendors, p.vendor).value, p.family.value)),
           p.details, if was.Some? then was.value.createdAt else now, now, d.path, Deduped(d.aliases),
           if was.Some? then was.value.edges else []))
  {
    hide Pass, Find, Get, ReadOnce, Distinct, OneEach, Deduped, Sound;
    ProductsReadOnce(rules, docs, s.vendors, s.families, s.listed);
    SoundIsDistinct(db);
    PassMeans(db.products, docs, ProductReader(rules, s.vendors, s.families), ProductMerge(now), slug);
    PassSucceedsIff(db.products, docs, ProductReader(rules, s.vendors, s.families), ProductMerge(now));
    assert !ProductReader(rules, s.vendors, s.families)(d).Bad?;
  }

  lemma SoundIsDistinct(db: Db)
    requires Sound(db)
    ensures Distinct(db.vendors) && Distinct(db.categories) && Distinct(db.families) && Distinct(db.products) && Distinct(db.sources)
  {
  }

  /** What the relationship pass then makes of it. */
  lemma ProductLinked(db: Db, rules: Rules, docs: seq<Document>, now: int, s: Stages, slug: string, d: Document)
    requires Sound(db) && OneEach(docs) && Staged(db, rules, docs, now, s)
    requires d in docs && d.product.Some? && d.product.value.slug == slug && Get(s.listed, slug).Some?
    ensures Find(s.listed, slug).Some?
    ensures var edges := ResolveEdges(rules, s.listed, Find(s.listed, slug).value, d.relationships);
      edges.Some? && Get(s.products, slug) == Some(Get(s.listed, slug).value.(edges := edges.value))
  {
    hide Pass, Find, Get, ReadOnce, Distinct, OneEach, ResolveEdges, Sound;
    ProductsReadOnce(rules, docs, s.vendors, s.families, s.listed);
    StagesGrow(db, rules, docs, now, s);
    PassMeans(s.listed, docs, EdgeReader(rules, s.listed), EdgeMerge(), slug);
    PassSucceedsIff(s.listed, docs, EdgeReader(rules, s.listed), EdgeMerge());
    assert !EdgeReader(rules, s.listed)(d).Bad?;
  }

  /**
   A declared product ends with exactly its document's vendor, family, aliases (each normalised form
   once) and outgoing edges, whatever it had before; one no document declares is as it was.
   */
  lemma ProductAfter(db: Db, rules: Rules, docs: seq<Document>, now: int, s: Stages, slug: string)
    requires Sound(db) && OneEach(docs) && Staged(db, rules, docs, now, s)
    ensures forall d | d in docs && d.product.Some? && d.product.value.slug == slug ::
      SeeProduct(After(s), slug) == Some(ProductSeen(
        Some(d.product.value.vendor), d.product.value.family, d.product.value.details,
        if SeeProduct(db, slug).Some? then SeeProduct(db, slug).value.createdAt else now,
        d.path, Deduped(d.aliases), EdgesStated(d.relationships)))
    ensures NoProduct(docs, slug) ==> SeeProduct(After(s), slug) == SeeProduct(db, slug)
  {
    hide Pass, Find, Get, ReadOnce, Distinct, OneEach, Deduped, ResolveEdges, Sound, Staged;
    StagesGrow(db, rules, docs, now, s);
    forall d | d in docs && d.product.Some? && d.product.value.slug == slug
      ensures SeeProduct(After(s), slug) == Some(ProductSeen(
        Some(d.product.value.vendor), d.product.value.family, d.product.value.details,
        if SeeProduct(db, slug).Some? then SeeProduct(db, slug).value.createdAt else now,
        d.path, Deduped(d.aliases), EdgesStated(d.relationships)))
    {
      ProductListed(db, rules, docs, now, s, slug, d);
      ProductLinked(db, rules, docs, now, s, slug, d);
      var from := Find(s.listed, slug).value;
      ResolvingEdges(rules, s.listed, from, d.relationships);
      var edges := ResolveEdges(rules, s.listed, from, d.relationships).value;
      assert SeeEdges(After(s), edges) == EdgesStated(d.relationships);
    }
    if NoProduct(docs, slug) { UndeclaredProduct(db, rules, docs, now, s, slug); }
  }

  lemma UndeclaredProduct(db: Db, rules: Rules, docs: seq<Document>, now: int, s: Stages, slug: string)
    requires Sound(db) && OneEach(docs) && Staged(db, rules, docs, now, s) && NoProduct(docs, slug)
    ensures SeeProduct(After(s), slug) == SeeProduct(db, slug)
  {
    hide Pass, Find, Get, ReadOnce, Distinct, OneEach, ResolveEdges, Sound, Deduped;
    StagesGrow(db, rules, docs, now, s);
    SoundIsDistinct(db);
    ProductsReadOnce(rules, docs, s.vendors, s.families, s.listed);
    PassMeans(db.products, docs, ProductReader(rules, s.vendors, s.families), ProductMerge(now), slug);
    PassMeans(s.listed, docs, EdgeReader(rules, s.listed), EdgeMerge(), slug);
    assert Get(s.products, slug) == Get(db.products, slug);
    if Get(db.products, slug).Some? {
      var p := Get(db.products, slug).value;
      OldProductStays(db, slug);
      assert SeeEdges(After(s), p.edges) == SeeEdges(db, p.edges);
    }
  }

  lemma OldProductStays(db: Db, slug: string)
    requires Sound(db) && Get(db.products, slug).Some?
    ensures ProductSound(db, Get(db.products, slug).value)
  {
    assert db.products[Find(db.products, slug).value] in db.products;
  }

  // ---------------------------------------------------------------------------------------------
  // Sources
  // ---------------------------------------------------------------------------------------------

  /** The health a sync leaves a source with. */
  function HealthAfter(was: Option<SourceSeen>, doc: SourceDoc): string {
    if was.Some? then (if was.value.health != DISCOVERED then was.value.health else doc.health)
    else if doc.health == "" then DISCOVERED else doc.health
  }

  function DetectionAfter(was: Option<SourceSeen>, doc: SourceDoc, now: int): Detection {
    if was.Some? then was.value.detection
    else if doc.detection.nextCheckAt == 0 then doc.detection.(nextCheckAt := now) else doc.detection
  }

  /** A new source is discovered unless its document says more, and is due at once unless it says when; a known one keeps its state. */
  lemma SourceStateMeans(was: Option<SourceSeen>, doc: SourceDoc, now: int)
    ensures was.None? ==>
      && (doc.health == "" ==> HealthAfter(was, doc) == "discovered") && (doc.health != "" ==> HealthAfter(was, doc) == doc.health)
      && (doc.detection.nextCheckAt == 0 ==> DetectionAfter(was, doc, now) == doc.detection.(nextCheckAt := now))
      && (doc.detection.nextCheckAt != 0 ==> DetectionAfter(was, doc, now) == doc.detection)
    ensures was.Some? ==>
      && DetectionAfter(was, doc, now) == was.value.detection
      && (was.value.health != "discovered" ==> HealthAfter(was, doc) == was.value.health)
      && (was.value.health == "discovered" ==> HealthAfter(was, doc) == doc.health)
  {
  }

  /** What the source pass leaves of a declared source, by identifiers. */
  lemma SourceMerged(db: Db, rules: Rules, docs: seq<Document>, now: int, s: Stages, d: Document)
    requires Sound(db) && OneEach(docs) && Staged(db, rules, docs, now, s)
    requires d in docs && d.source.Some?
    ensures var doc := d.source.value;
      && Find(s.vendors, doc.vendor).Some? && (doc.product.Some? ==> Find(s.products, doc.product.value).Some?)
      && doc.health in HEALTHS
      && var k := (Find(s.vendors, doc.vendor).value, doc.slug);
         Get(s.sources, k) == Some(SourceMerge(now)(Get(db.sources, k), ResolvedSource(
           if doc.product.None? then None else Find(s.products, doc.product.value), d.path, doc)))
  {
    hide Pass, Find, Get, ReadOnce, Distinct, OneEach, Sound, SourceMerge;
    SoundIsDistinct(db);
    SourcesReadOnce(rules, docs, s.vendors, s.products);
    PassSucceedsIff(db.sources, docs, SourceReader(rules, s.vendors, s.products), SourceMerge(now));
    assert !SourceReader(rules, s.vendors, s.products)(d).Bad?;
    var k := (Find(s.vendors, d.source.value.vendor).value, d.source.value.slug);
    PassMeans(db.sources, docs, SourceReader(rules, s.vendors, s.products), SourceMerge(now), k);
  }

  lemma UndeclaredSource(db: Db, rules: Rules, docs: seq<Document>, now: int, s: Stages, vendor: string, slug: string)
    requires Sound(db) && OneEach(docs) && Staged(db, rules, docs, now, s) && NoSource(docs, vendor, slug)
    ensures SeeSource(After(s), vendor, slug) == SeeSource(db, vendor, slug)
  {
    hide Pass, Find, Get, ReadOnce, Distinct, OneEach, Sound, SourceMerge;
    StagesGrow(db, rules, docs, now, s);
    SoundIsDistinct(db);
    SourcesReadOnce(rules, docs, s.vendors, s.products);
    FoundStays(db.vendors, s.vendors, vendor);
    if Find(s.vendors, vendor).Some? {
      var k := (Find(s.vendors, vendor).value, slug);
      PassMeans(db.sources, docs, SourceReader(rules, s.vendors, s.products), SourceMerge(now), k);
      OldSourceStays(db, k);
    }
  }

  /**
   A source reads as its document says but for what the running system owns: the change-detection state
   of one that was there is never altered, nor its health once past discovered.
   */
  lemma SourceAfter(db: Db, rules: Rules, docs: seq<Document>, now: int, s: Stages, vendor: string, slug: string)
    requires Sound(db) && OneEach(docs) && Staged(db, rules, docs, now, s)
    ensures forall d | d in docs && d.source.Some? && d.source.value.vendor == vendor && d.source.value.slug == slug ::
      var was := SeeSource(db, vendor, slug);
      SeeSource(After(s), vendor, slug) == Some(SourceSeen(d.source.value.product, d.source.value.details,
        HealthAfter(was, d.source.value), DetectionAfter(was, d.source.value, now), d.path)) && d.source.value.health in HEALTHS
    ensures NoSource(docs, vendor, slug) ==> SeeSource(After(s), vendor, slug) == SeeSource(db, vendor, slug)
  {
    hide Find, Get, Distinct, OneEach, Sound, Staged;
    StagesGrow(db, rules, docs, now, s);
    FoundStays(db.vendors, s.vendors, vendor);
    forall d | d in docs && d.source.Some? && d.source.value.vendor == vendor && d.source.value.slug == slug
      ensures var was := SeeSource(db, vendor, slug);
        SeeSource(After(s), vendor, slug) == Some(SourceSeen(d.source.value.product, d.source.value.details,
          HealthAfter(was, d.source.value), DetectionAfter(was, d.source.value, now), d.path)) && d.source.value.health in HEALTHS
    {
      SourceMerged(db, rules, docs, now, s, d);
      OldSourceStays(db, (Find(s.vendors, vendor).value, slug));
    }
    if NoSource(docs, vendor, slug) { UndeclaredSource(db, rules, docs, now, s, vendor, slug); }
  }

  lemma OldSourceStays(db: Db, k: (nat, string))
    requires Sound(db)
    ensures k.0 >= |db.vendors| ==> Get(db.sources, k) == None
    ensures Get(db.sources, k).Some? && Get(db.sources, k).value.product.Some? ==> Get(db.sources, k).value.product.value < |db.products|
  {
    var i := Find(db.sources, k);
    if i.Some? { assert db.sources[i.value] in db.sources; }
  }

  // ---------------------------------------------------------------------------------------------
  // When a sync succeeds
  // ---------------------------------------------------------------------------------------------

  ghost predicate KnownVendor(db: Db, docs: seq<Document>, slug: string) { Find(db.vendors, slug).Some? || !NoVendor(docs, slug) }

  ghost predicate KnownCategory(db: Db, docs: seq<Document>, slug: string) { Find(db.categories, slug).Some? || !NoCategory(docs, slug) }

  ghost predicate KnownFamily(db: Db, docs: seq<Document>, vendor: string, slug: string) {
    SeeFamily(db, vendor, slug).Some? || !NoFamily(docs, vendor, slug)
  }

  ghost predicate KnownProduct(db: Db, docs: seq<Document>, slug: string) { Find(db.products, slug).Some? || !NoProduct(docs, slug) }

  ghost predicate ParentOk(db: Db, docs: seq<Document>, d: Document) {
    d.category.Some? && d.category.value.parent.Some? ==>
      d.category.value.slug != d.category.value.parent.value && KnownCategory(db, docs, d.category.value.parent.value)
  }

  ghost predicate FamilyOk(db: Db, rules: Rules, docs: seq<Document>, d: Document) {
    d.family.Some? ==> KnownVendor(db, docs, d.family.value.vendor) && rules.family(d.family.value)
  }

  ghost predicate ProductOk(db: Db, rules: Rules, docs: seq<Document>, d: Document) {
    d.product.Some? ==>
      && KnownVendor(db, docs, d.product.value.vendor) && rules.product(d.product.value)
      && (d.product.value.family.Some? ==> KnownFamily(db, docs, d.product.value.vendor, d.product.value.family.value))
  }

  ghost predicate EdgesOk(db: Db, rules: Rules, docs: seq<Document>, d: Document) {
    if d.product.None? then d.relationships == []
    else forall e | e in d.relationships :: KnownProduct(db, docs, e.target) && rules.kind(e.kind) && e.target != d.product.value.slug
  }

  ghost predicate SourceOk(db: Db, rules: Rules, docs: seq<Document>, d: Document) {
    d.source.Some? ==>
      && KnownVendor(db, docs, d.source.value.vendor)
      && (d.source.value.product.Some? ==> KnownProduct(db, docs, d.source.value.product.value))
      && rules.source(d.source.value) && d.source.value.health in HEALTHS
  }

  /**
   Every document is valid and refers only to what the database already holds or some document declares,
   wherever in the list; no category or product refers to itself, and only products have relationships.
   */
  ghost predicate Accepts(db: Db, rules: Rules, docs: seq<Document>) {
    forall d | d in docs ::
      && (d.vendor.Some? ==> rules.vendor(d.vendor.value))
      && (d.category.Some? ==> rules.category(d.category.value)) && ParentOk(db, docs, d)
      && FamilyOk(db, rules, docs, d) && ProductOk(db, rules, docs, d) && EdgesOk(db, rules, docs, d) && SourceOk(db, rules, docs, d)
  }

  lemma VendorsKnown(db: Db, rules: Rules, docs: seq<Document>, now: int, vendors: seq<Entry<string, Vendor>>)
    requires Sound(db) && Pass(db.vendors, docs, VendorReader(rules), VendorMerge(now)) == Some(vendors)
    ensures Distinct(vendors) && Extends(db.vendors, vendors)
    ensures forall slug :: Find(vendors, slug).Some? <==> KnownVendor(db, docs, slug)
  {
    hide Pass, Find, ReadOnce;
    PassSucceedsIff(db.vendors, docs, VendorReader(rules), VendorMerge(now));
    PassKeys(db.vendors, docs, VendorReader(rules), VendorMerge(now), "");
    forall slug ensures Find(vendors, slug).Some? <==> KnownVendor(db, docs, slug) {
      PassKeys(db.vendors, docs, VendorReader(rules), VendorMerge(now), slug);
      forall d | d in docs && d.vendor.Some? && d.vendor.value.slug == slug
        ensures VendorReader(rules)(d) == Good(Entry(slug, Stated(d.path, d.vendor.value))) {}
    }
  }

  lemma CategoriesKnown(db: Db, rules: Rules, docs: seq<Document>, cleared: seq<Entry<string, Category>>)
    requires Sound(db) && Pass(db.categories, docs, CategoryReader(rules), CategoryMerge()) == Some(cleared)
    ensures forall slug :: Find(cleared, slug).Some? <==> KnownCategory(db, docs, slug)
    ensures forall d | d in docs :: ParentReader(cleared)(d).Bad? <==> !ParentOk(db, docs, d)
  {
    hide Pass, Find, ReadOnce;
    PassSucceedsIff(db.categories, docs, CategoryReader(rules), CategoryMerge());
    forall slug ensures Find(cleared, slug).Some? <==> KnownCategory(db, docs, slug) {
      PassKeys(db.categories, docs, CategoryReader(rules), CategoryMerge(), slug);
      forall d | d in docs && d.category.Some? && d.category.value.slug == slug
        ensures CategoryReader(rules)(d) == Good(Entry(slug, Stated(d.path, d.category.value))) {}
    }
  }

  lemma FamiliesKnown(db: Db, rules: Rules, docs: seq<Document>, vendors: seq<Entry<string, Vendor>>, families: seq<Entry<(nat, string), Family>>)
    requires Sound(db) && Distinct(vendors) && Extends(db.vendors, vendors)
    requires Pass(db.families, docs, FamilyReader(rules, vendors), FamilyMerge()) == Some(families)
    ensures forall vendor, slug | Find(vendors, vendor).Some? ::
      Find(families, (Find(vendors, vendor).value, slug)).Some? <==> KnownFamily(db, docs, vendor, slug)
  {
    hide Pass, Find, Get, ReadOnce, Distinct, Sound;
    SoundIsDistinct(db);
    PassSucceedsIff(db.families, docs, FamilyReader(rules, vendors), FamilyMerge());
    forall vendor, slug | Find(vendors, vendor).Some?
      ensures Find(families, (Find(vendors, vendor).value, slug)).Some? <==> KnownFamily(db, docs, vendor, slug)
    {
      var k := (Find(vendors, vendor).value, slug);
      PassKeys(db.families, docs, FamilyReader(rules, vendors), FamilyMerge(), k);
      FoundStays(db.vendors, vendors, vendor);
      FoundIsGot(db.families, k);
      if Find(db.vendors, vendor).None? { NoFamilyYet(db, k); }
      forall d | d in docs && d.family.Some? && d.family.value.vendor == vendor && d.family.value.slug == slug
        ensures FamilyReader(rules, vendors)(d) == Good(Entry(k, Stated(d.path, d.family.value)))
      {
        assert !FamilyReader(rules, vendors)(d).Bad?;
      }
    }
  }

  lemma ProductsKnown(db: Db, rules: Rules, docs: seq<Document>, now: int, vendors: seq<Entry<string, Vendor>>,
                      families: seq<Entry<(nat, string), Family>>, listed: seq<Entry<string, Product>>)
    requires Sound(db)
    requires Pass(db.products, docs, ProductReader(rules, vendors, families), ProductMerge(now)) == Some(listed)
    ensures Distinct(listed)
    ensures forall slug :: Find(listed, slug).Some? <==> KnownProduct(db, docs, slug)
  {
    hide Pass, Find, ReadOnce, Distinct, Sound, Deduped;
    SoundIsDistinct(db);
    PassSucceedsIff(db.products, docs, ProductReader(rules, vendors, families), ProductMerge(now));
    PassKeys(db.products, docs, ProductReader(rules, vendors, families), ProductMerge(now), "");
    forall slug ensures Find(listed, slug).Some? <==> KnownProduct(db, docs, slug) {
      PassKeys(db.products, docs, ProductReader(rules, vendors, families), ProductMerge(now), slug);
      forall d | d in docs && d.product.Some? && d.product.value.slug == slug
        ensures exists e :: ProductReader(rules, vendors, families)(d) == Good(Entry(slug, e))
      {
        var r := ProductReader(rules, vendors, families)(d);
        assert !r.Bad?;
        assert r == Good(Entry(slug, r.entry.value));
      }
    }
  }

  lemma EdgesBadIff(db: Db, rules: Rules, docs: seq<Document>, listed: seq<Entry<string, Product>>, d: Document)
    requires Distinct(listed) && d in docs
    requires forall slug :: Find(listed, slug).Some? <==> KnownProduct(db, docs, slug)
    ensures EdgeReader(rules, listed)(d).Bad? <==> !EdgesOk(db, rules, docs, d)
  {
    hide Find, ResolveEdges, Distinct;
    if d.product.Some? {
      assert KnownProduct(db, docs, d.product.value.slug);
      ResolvingEdges(rules, listed, Find(listed, d.product.value.slug).value, d.relationships);
    }
  }

  lemma EdgesKeepProducts(rules: Rules, docs: seq<Document>, listed: seq<Entry<string, Product>>, products: seq<Entry<string, Product>>)
    requires Distinct(listed) && Pass(listed, docs, EdgeReader(rules, listed), EdgeMerge()) == Some(products)
    ensures forall slug :: Find(products, slug).Some? <==> Find(listed, slug).Some?
  {
    hide Pass, Find, ReadOnce, Distinct, ResolveEdges;
    forall slug ensures Find(products, slug).Some? <==> Find(listed, slug).Some? {
      PassKeys(listed, docs, EdgeReader(rules, listed), EdgeMerge(), slug);
    }
  }

  /** A sync succeeds exactly when the documents are acceptable, which their order has no part in. */
  lemma SyncSucceedsIff(db: Db, rules: Rules, docs: seq<Document>, now: int)
    requires Sound(db)
    ensures Sync(db, rules, docs, now).Some? <==> Accepts(db, rules, docs)
  {
    hide Pass, Find, Sound, Distinct, Extends, ParentReader, EdgeReader, KnownVendor, KnownCategory, KnownFamily, KnownProduct,
      ParentOk, EdgesOk, VendorMerge, CategoryMerge, ParentMerge, FamilyMerge, ProductMerge, EdgeMerge, SourceMerge;
    PassSucceedsIff(db.vendors, docs, VendorReader(rules), VendorMerge(now));
    var vendors := Pass(db.vendors, docs, VendorReader(rules), VendorMerge(now));
    if vendors.None? { return; }
    VendorsKnown(db, rules, docs, now, vendors.value);
    PassSucceedsIff(db.categories, docs, CategoryReader(rules), CategoryMerge());
    var cleared := Pass(db.categories, docs, CategoryReader(rules), CategoryMerge());
    if cleared.None? { return; }
    CategoriesKnown(db, rules, docs, cleared.value);
    PassSucceedsIff(cleared.value, docs, ParentReader(cleared.value), ParentMerge());
    var categories := Pass(cleared.value, docs, ParentReader(cleared.value), ParentMerge());
    if categories.None? { return; }
    PassSucceedsIff(db.families, docs, FamilyReader(rules, vendors.value), FamilyMerge());
    var families := Pass(db.families, docs, FamilyReader(rules, vendors.value), FamilyMerge());
    if families.None? { return; }
    FamiliesKnown(db, rules, docs, vendors.value, families.value);
    PassSucceedsIff(db.products, docs, ProductReader(rules, vendors.value, families.value), ProductMerge(now));
    var listed := Pass(db.products, docs, ProductReader(rules, vendors.value, families.value), ProductMerge(now));
    if listed.None? { return; }
    ProductsKnown(db, rules, docs, now, vendors.value, families.value, listed.value);
    forall d | d in docs ensures EdgeReader(rules, listed.value)(d).Bad? <==> !EdgesOk(db, rules, docs, d) {
      EdgesBadIff(db, rules, docs, listed.value, d);
    }
    PassSucceedsIff(listed.value, docs, EdgeReader(rules, listed.value), EdgeMerge());
    var products := Pass(listed.value, docs, EdgeReader(rules, listed.value), EdgeMerge());
    if products.None? { return; }
    EdgesKeepProducts(rules, docs, listed.value, products.value);
    PassSucceedsIff(db.sources, docs, SourceReader(rules, vendors.value, products.value), SourceMerge(now));
  }

  // ---------------------------------------------------------------------------------------------
  // The order of the documents does not matter
  // ---------------------------------------------------------------------------------------------

  ghost predicate SameDocuments(docs: seq<Document>, docs': seq<Document>) {
    forall d :: d in docs <==> d in docs'
  }

  lemma AcceptanceIgnoresOrder(db: Db, rules: Rules, docs: seq<Document>, docs': seq<Document>)
    requires SameDocuments(docs, docs') && Accepts(db, rules, docs)
    ensures Accepts(db, rules, docs')
  {
    hide Find, SeeFamily;
    forall d | d in docs'
      ensures d in docs
      ensures ParentOk(db, docs, d) == ParentOk(db, docs', d) && FamilyOk(db, rules, docs, d) == FamilyOk(db, rules, docs', d)
      ensures ProductOk(db, rules, docs, d) == ProductOk(db, rules, docs', d) && EdgesOk(db, rules, docs, d) == EdgesOk(db, rules, docs', d)
      ensures SourceOk(db, rules, docs, d) == SourceOk(db, rules, docs', d)
    {
      KnowingIgnoresOrder(db, docs, docs');
    }
  }

  lemma KnowingIgnoresOrder(db: Db, docs: seq<Document>, docs': seq<Document>)
    requires SameDocuments(docs, docs')
    ensures forall slug :: KnownVendor(db, docs, slug) == KnownVendor(db, docs', slug)
    ensures forall slug :: KnownCategory(db, docs, slug) == KnownCategory(db, docs', slug)
    ensures forall vendor, slug :: KnownFamily(db, docs, vendor, slug) == KnownFamily(db, docs', vendor, slug)
    ensures forall slug :: KnownProduct(db, docs, slug) == KnownProduct(db, docs', slug)
  {
    hide Find, SeeFamily;
  }

  /**
   For documents that declare distinct things, whether a sync succeeds and what it leaves, seen by slug,
   depend only on which documents there are.
   */
  lemma SyncIgnoresOrder(db: Db, rules: Rules, docs: seq<Document>, docs': seq<Document>, now: int)
    requires Sound(db) && OneEach(docs) && OneEach(docs') && SameDocuments(docs, docs')
    ensures Sync(db, rules, docs, now).Some? <==> Sync(db, rules, docs', now).Some?
    ensures Sync(db, rules, docs, now).Some? ==>
      SameBySlug(Sync(db, rules, docs, now).value, Sync(db, rules, docs', now).value)
  {
    hide Sync, Accepts, Sound, OneEach, Staged, SeeVendor, SeeCategory, SeeFamily, SeeProduct, SeeSource;
    SyncSucceedsIff(db, rules, docs, now);
    SyncSucceedsIff(db, rules, docs', now);
    if Accepts(db, rules, docs) { AcceptanceIgnoresOrder(db, rules, docs, docs'); }
    if Accepts(db, rules, docs') { AcceptanceIgnoresOrder(db, rules, docs', docs); }
    if Sync(db, rules, docs, now).Some? {
      var s := StagesOf(db, rules, docs, now);
      var t := StagesOf(db, rules, docs', now);
      assert After(s) == Sync(db, rules, docs, now).value && After(t) == Sync(db, rules, docs', now).value;
      forall slug ensures SeeVendor(After(s), slug) == SeeVendor(After(t), slug) {
        VendorAfter(db, rules, docs, now, s, slug);
        VendorAfter(db, rules, docs', now, t, slug);
      }
      forall slug ensures SeeCategory(After(s), slug) == SeeCategory(After(t), slug) {
        CategoryAfter(db, rules, docs, now, s, slug);
        CategoryAfter(db, rules, docs', now, t, slug);
      }
      forall vendor, slug ensures SeeFamily(After(s), vendor, slug) == SeeFamily(After(t), vendor, slug) {
        FamilyAfter(db, rules, docs, now, s, vendor, slug);
        FamilyAfter(db, rules, docs', now, t, vendor, slug);
      }
      forall slug ensures SeeProduct(After(s), slug) == SeeProduct(After(t), slug) {
        ProductAfter(db, rules, docs, now, s, slug);
        ProductAfter(db, rules, docs', now, t, slug);
      }
      forall vendor, slug ensures SeeSource(After(s), vendor, slug) == SeeSource(After(t), vendor, slug) {
        SourceAfter(db, rules, docs, now, s, vendor, slug);
        SourceAfter(db, rules, docs', now, t, vendor, slug);
      }
    }
  }

  // ---------------------------------------------------------------------------------------------
  // A sync leaves a sound database
  // ---------------------------------------------------------------------------------------------

  lemma CategoriesStaySound(db: Db, rules: Rules, docs: seq<Document>, now: int, s: Stages)
    requires Sound(db) && Staged(db, rules, docs, now, s) && Grown(db, s)
    ensures forall e | e in s.categories :: e.value.parent.Some? ==> e.value.parent.value < |s.categories|
  {
    hide Find, PutAll, Gather, Distinct;
    var ok := (k: string, c: Category) => c.parent.Some? ==> c.parent.value < |s.categories|;
    GatherMeans(docs, ParentReader(s.cleared));
    PutAllKeeps(db.categories, Read(docs, CategoryReader(rules)), CategoryMerge(), ok);
    PutAllKeeps(s.cleared, Read(docs, ParentReader(s.cleared)), ParentMerge(), ok);
  }

  lemma FamiliesStaySound(db: Db, rules: Rules, docs: seq<Document>, now: int, s: Stages)
    requires Sound(db) && Staged(db, rules, docs, now, s) && Grown(db, s)
    ensures forall e | e in s.families :: e.key.0 < |s.vendors|
  {
    hide Find, PutAll, Gather, Distinct;
    GatherMeans(docs, FamilyReader(rules, s.vendors));
    PutAllKeeps(db.families, Read(docs, FamilyReader(rules, s.vendors)), FamilyMerge(), (k: (nat, string), f: Family) => k.0 < |s.vendors|);
  }

  lemma SourcesStaySound(db: Db, rules: Rules, docs: seq<Document>, now: int, s: Stages)
    requires Sound(db) && Staged(db, rules, docs, now, s) && Grown(db, s)
    ensures forall e | e in s.sources :: e.key.0 < |s.vendors| && (e.value.product.Some? ==> e.value.product.value < |s.products|)
  {
    hide Find, PutAll, Gather, Distinct;
    var read := SourceReader(rules, s.vendors, s.products);
    var ds := Read(docs, read);
    forall d | d in ds
      ensures d.key.0 < |s.vendors| && (d.value.product.Some? ==> d.value.product.value < |s.products|)
    {
      var j := ReadFrom(docs, read, d);
    }
    PutAllKeeps(db.sources, ds, SourceMerge(now),
      (k: (nat, string), r: Source) => k.0 < |s.vendors| && (r.product.Some? ==> r.product.value < |s.products|));
  }

  /** References of a product that resolve in tables of these sizes. */
  predicate Refers(p: Product, vendors: nat, families: nat, products: nat) {
    && p.vendor < vendors && (p.family.Some? ==> p.family.value < families)
    && forall edge | edge in p.edges :: edge.target < products
  }

  lemma {:induction false} ResolvedEdgesRefer(rules: Rules, products: seq<Entry<string, Product>>, from: nat, edges: seq<EdgeDoc>)
    ensures var r := ResolveEdges(rules, products, from, edges);
      r.Some? ==> forall edge | edge in r.value :: edge.target < |products|
  {
    if |edges| > 0 { ResolvedEdgesRefer(rules, products, from, edges[..|edges| - 1]); }
  }

  lemma ProductsListedSound(db: Db, rules: Rules, docs: seq<Document>, now: int, s: Stages)
    requires Sound(db) && Staged(db, rules, docs, now, s) && Grown(db, s)
    ensures forall e | e in s.listed :: Refers(e.value, |s.vendors|, |s.families|, |s.products|)
  {
    hide Find, PutAll, Gather, Distinct, Deduped;
    GatherMeans(docs, ProductReader(rules, s.vendors, s.families));
    forall e | e in db.products ensures Refers(e.value, |s.vendors|, |s.families|, |s.products|) {
      assert ProductSound(db, e.value);
    }
    PutAllKeeps(db.products, Read(docs, ProductReader(rules, s.vendors, s.families)), ProductMerge(now),
      (k: string, p: Product) => Refers(p, |s.vendors|, |s.families|, |s.products|));
  }

  lemma ProductsStaySound(db: Db, rules: Rules, docs: seq<Document>, now: int, s: Stages)
    requires Sound(db) && Staged(db, rules, docs, now, s) && Grown(db, s)
    ensures forall e | e in s.products :: ProductSound(After(s), e.value)
  {
    hide Find, PutAll, Gather, Distinct, ResolveEdges;
    ProductsListedSound(db, rules, docs, now, s);
    var es := Read(docs, EdgeReader(rules, s.listed));
    forall d: Entry<string, seq<Edge>> | d in es
      ensures Find(s.listed, d.key).Some? && forall edge: Edge | edge in d.value :: edge.target < |s.products|
    {
      var j := ReadFrom(docs, EdgeReader(rules, s.listed), d);
      ResolvedEdgesRefer(rules, s.listed, Find(s.listed, d.key).value, docs[j].relationships);
    }
    EdgesKeepReferring(s.listed, es, |s.vendors|, |s.families|, |s.products|);
  }

  /** Setting edges of rows that are there leaves every row referring to rows. */
  lemma {:induction false} EdgesKeepReferring(t: seq<Entry<string, Product>>, es: seq<Entry<string, seq<Edge>>>, vendors: nat, families: nat, products: nat)
    requires Distinct(t) && forall e | e in t :: Refers(e.value, vendors, families, products)
    requires forall d: Entry<string, seq<Edge>> | d in es :: Find(t, d.key).Some? && forall edge: Edge | edge in d.value :: edge.target < products
    ensures forall e | e in PutAll(t, es, EdgeMerge()) :: Refers(e.value, vendors, families, products)
  {
    if |es| > 0 {
      var n := |es| - 1;
      assert es[n] in es && forall d | d in es[..n] :: d in es;
      EdgesKeepReferring(t, es[..n], vendors, families, products);
      PutAllFolds(t, es[..n], EdgeMerge(), es[n].key);
      var before := PutAll(t, es[..n], EdgeMerge());
      FoundStays(t, before, es[n].key);
      var i := Find(before, es[n].key).value;
      assert before[i] in before;
    }
  }

  /** Whatever is synced, natural keys stay unique and references stay references to rows. */
  lemma SyncStaysSound(db: Db, rules: Rules, docs: seq<Document>, now: int)
    requires Sound(db) && Sync(db, rules, docs, now).Some?
    ensures Sound(Sync(db, rules, docs, now).value)
  {
    hide Sync, Staged, Distinct, ProductSound;
    var s := StagesOf(db, rules, docs, now);
    StagesGrow(db, rules, docs, now, s);
    CategoriesStaySound(db, rules, docs, now, s);
    FamiliesStaySound(db, rules, docs, now, s);
    ProductsStaySound(db, rules, docs, now, s);
    SourcesStaySound(db, rules, docs, now, s);
  }

  // ---------------------------------------------------------------------------------------------
  // Syncing again reads the same
  // ---------------------------------------------------------------------------------------------

  /** Every row has the identifier and the natural key it had, and there are no others. */
  ghost predicate SameIdentifiers(a: Db, b: Db) {
    && SameKeys(a.vendors, b.vendors) && SameKeys(a.categories, b.categories) && SameKeys(a.families, b.families)
    && SameKeys(a.products, b.products) && SameKeys(a.sources, b.sources)
  }

  ghost predicate SameKeys<K, V>(t: seq<Entry<K, V>>, next: seq<Entry<K, V>>) {
    |t| == |next| && Extends(t, next)
  }

  /** An extension whose every key was there already has no new rows. */
  lemma NoNewKeys<K, V>(t: seq<Entry<K, V>>, next: seq<Entry<K, V>>)
    requires Distinct(next) && Extends(t, next) && forall k :: Find(next, k).Some? ==> Find(t, k).Some?
    ensures SameKeys(t, next)
  {
    if |t| < |next| {
      FoundOnlyThere(next, |t|);
      assert false;
    }
  }

  /** Two tables that find every key in the same place, as a pass reads them. */
  ghost predicate FindAlike<K(!new), V>(a: seq<Entry<K, V>>, b: seq<Entry<K, V>>) {
    && SameKeys(a, b) && forall k :: Find(b, k) == Find(a, k)
  }

  /** Tables with the same keys find them in the same places. */
  lemma SameKeysFindAlike<K(!new), V>(t: seq<Entry<K, V>>, next: seq<Entry<K, V>>)
    requires Distinct(t) && Distinct(next) && SameKeys(t, next)
    ensures FindAlike(t, next)
  {
    forall k ensures Find(next, k) == Find(t, k) {
      FoundStays(t, next, k);
      if Find(next, k).Some? { assert t[Find(next, k).value].key == k; }
    }
  }

  /** A second round of the same upserts adds no row. */
  lemma SecondRoundAddsNone<K, V, D>(t: seq<Entry<K, V>>, ds: seq<Entry<K, D>>, merge: (Option<V>, D) -> V,
                                     between: seq<Entry<K, V>>, again: (Option<V>, D) -> V)
    requires Distinct(t) && Distinct(between) && Extends(PutAll(t, ds, merge), between)
    ensures SameKeys(between, PutAll(between, ds, again)) && Distinct(PutAll(between, ds, again))
  {
    hide Find, Get, PutAll, Fold, Last;
    var first, second := PutAll(t, ds, merge), PutAll(between, ds, again);
    forall k ensures Distinct(second) && Extends(between, second) && (Find(second, k).Some? ==> Find(between, k).Some?) {
      PutAllFolds(between, ds, again, k);
      PutAllFolds(t, ds, merge, k);
      FoldedIsThere(Get(between, k), ds, again, k);
      FoldedIsThere(Get(t, k), ds, merge, k);
      FoundIsGot(second, k);
      FoundIsGot(between, k);
      FoundIsGot(first, k);
      FoundStays(first, between, k);
    }
    GrownByNone(between, ds, again);
    NoNewKeys(between, second);
  }

  lemma GrownByNone<K, V, D>(t: seq<Entry<K, V>>, ds: seq<Entry<K, D>>, merge: (Option<V>, D) -> V)
    requires Distinct(t)
    ensures Distinct(PutAll(t, ds, merge)) && Extends(t, PutAll(t, ds, merge))
  {
    if |ds| > 0 { PutAllFolds(t, ds, merge, ds[0].key); }
  }

  lemma {:induction false} SameReadings<E>(docs: seq<Document>, read: Document -> Reading<E>, read': Document -> Reading<E>)
    requires forall d | d in docs :: read'(d) == read(d)
    ensures Gather(docs, read') == Gather(docs, read)
  {
    if |docs| > 0 {
      var n := |docs| - 1;
      assert docs[n] in docs && forall d | d in docs[..n] :: d in docs;
      SameReadings(docs[..n], read, read');
    }
  }

  lemma {:induction false} SameFindSameTargets(rules: Rules, a: seq<Entry<string, Product>>, b: seq<Entry<string, Product>>, from: nat, docs: seq<EdgeDoc>)
    requires forall k :: Find(a, k) == Find(b, k)
    ensures ResolveEdges(rules, a, from, docs) == ResolveEdges(rules, b, from, docs)
  {
    hide Find;
    if |docs| > 0 { SameFindSameTargets(rules, a, b, from, docs[..|docs| - 1]); }
  }

  /** A first sync and one more of the same documents. */
  ghost predicate Twice(db: Db, rules: Rules, docs: seq<Document>, now: int, s: Stages, later: int, t: Stages) {
    && Sound(db) && Staged(db, rules, docs, now, s) && Grown(db, s)
    && Sound(After(s)) && Staged(After(s), rules, docs, later, t) && Grown(After(s), t)
  }

  lemma VendorsAgain(db: Db, rules: Rules, docs: seq<Document>, now: int, s: Stages, later: int, t: Stages)
    requires Twice(db, rules, docs, now, s, later, t)
    ensures FindAlike(s.vendors, t.vendors)
    ensures Gather(docs, VendorReader(rules)).Some?
    ensures t.vendors == PutAll(s.vendors, Read(docs, VendorReader(rules)), VendorMerge(later))
    ensures s.vendors == PutAll(db.vendors, Read(docs, VendorReader(rules)), VendorMerge(now))
  {
    hide Find, PutAll, Gather, Distinct, SameKeys, Sound, VendorReader, VendorMerge;
    SoundIsDistinct(db);
    var ds := Read(docs, VendorReader(rules));
    ExtendsItself(s.vendors);
    SecondRoundAddsNone(db.vendors, ds, VendorMerge(now), s.vendors, VendorMerge(later));
    SameKeysFindAlike(s.vendors, t.vendors);
  }

  lemma ExtendsItself<K, V>(t: seq<Entry<K, V>>)
    ensures Extends(t, t)
  {
  }

  lemma CategoriesAgain(db: Db, rules: Rules, docs: seq<Document>, now: int, s: Stages, later: int, t: Stages)
    requires Twice(db, rules, docs, now, s, later, t)
    ensures FindAlike(s.categories, t.categories)
    ensures Gather(docs, CategoryReader(rules)).Some? && Gather(docs, ParentReader(s.cleared)).Some?
    ensures var ds, ps := Read(docs, CategoryReader(rules)), Read(docs, ParentReader(s.cleared));
      && s.cleared == PutAll(db.categories, ds, CategoryMerge()) && s.categories == PutAll(s.cleared, ps, ParentMerge())
      && t.cleared == PutAll(s.categories, ds, CategoryMerge()) && t.categories == PutAll(t.cleared, ps, ParentMerge())
  {
    hide Find, PutAll, Gather, Distinct, SameKeys, Sound, CategoryReader, CategoryMerge, ParentMerge;
    SoundIsDistinct(db);
    var ds, ps := Read(docs, CategoryReader(rules)), Read(docs, ParentReader(s.cleared));
    SecondRoundAddsNone(db.categories, ds, CategoryMerge(), s.categories, CategoryMerge());
    SameKeysFindAlike(s.categories, t.cleared);
    ParentsAddNone(docs, s.cleared, s.categories);
    forall d | d in docs ensures ParentReader(t.cleared)(d) == ParentReader(s.cleared)(d) {}
    SameReadings(docs, ParentReader(s.cleared), ParentReader(t.cleared));
    ParentsAddNone(docs, t.cleared, t.categories);
    SameKeysCompose(s.categories, t.cleared, t.categories);
    SameKeysFindAlike(s.categories, t.categories);
  }

  lemma SameKeysCompose<K, V>(a: seq<Entry<K, V>>, b: seq<Entry<K, V>>, c: seq<Entry<K, V>>)
    requires SameKeys(a, b) && SameKeys(b, c)
    ensures SameKeys(a, c)
  {
  }

  /** The parent pass only rewrites rows. */
  lemma ParentsAddNone(docs: seq<Document>, cleared: seq<Entry<string, Category>>, categories: seq<Entry<string, Category>>)
    requires Distinct(cleared) && Pass(cleared, docs, ParentReader(cleared), ParentMerge()) == Some(categories)
    ensures Distinct(categories) && SameKeys(cleared, categories) && forall k :: Find(categories, k) == Find(cleared, k)
  {
    hide Find, Pass, Distinct, SameKeys, ParentMerge;
    PassKeys(cleared, docs, ParentReader(cleared), ParentMerge(), "");
    forall k ensures Find(categories, k).Some? ==> Find(cleared, k).Some? {
      PassKeys(cleared, docs, ParentReader(cleared), ParentMerge(), k);
    }
    NoNewKeys(cleared, categories);
    SameKeysFindAlike(cleared, categories);
  }

  /** The relationship pass only rewrites rows. */
  lemma EdgesAddNone(rules: Rules, docs: seq<Document>, listed: seq<Entry<string, Product>>, products: seq<Entry<string, Product>>)
    requires Distinct(listed) && Pass(listed, docs, EdgeReader(rules, listed), EdgeMerge()) == Some(products)
    ensures Distinct(products) && SameKeys(listed, products) && forall k :: Find(products, k) == Find(listed, k)
  {
    hide Find, Pass, Distinct, SameKeys, EdgeMerge, ResolveEdges;
    PassKeys(listed, docs, EdgeReader(rules, listed), EdgeMerge(), "");
    forall k ensures Find(products, k).Some? ==> Find(listed, k).Some? {
      PassKeys(listed, docs, EdgeReader(rules, listed), EdgeMerge(), k);
    }
    NoNewKeys(listed, products);
    SameKeysFindAlike(listed, products);
  }

  lemma FamiliesAgain(db: Db, rules: Rules, docs: seq<Document>, now: int, s: Stages, later: int, t: Stages)
    requires Twice(db, rules, docs, now, s, later, t) && FindAlike(s.vendors, t.vendors)
    ensures FindAlike(s.families, t.families)
    ensures Gather(docs, FamilyReader(rules, s.vendors)).Some?
    ensures var ds := Read(docs, FamilyReader(rules, s.vendors));
      s.families == PutAll(db.families, ds, FamilyMerge()) && t.families == PutAll(s.families, ds, FamilyMerge())
  {
    hide Find, PutAll, Gather, Distinct, SameKeys, Sound, FamilyMerge;
    SoundIsDistinct(db);
    forall d | d in docs ensures FamilyReader(rules, t.vendors)(d) == FamilyReader(rules, s.vendors)(d) {}
    SameReadings(docs, FamilyReader(rules, s.vendors), FamilyReader(rules, t.vendors));
    ExtendsItself(s.families);
    SecondRoundAddsNone(db.families, Read(docs, FamilyReader(rules, s.vendors)), FamilyMerge(), s.families, FamilyMerge());
    SameKeysFindAlike(s.families, t.families);
  }

  lemma ListingAgain(db: Db, rules: Rules, docs: seq<Document>, now: int, s: Stages, later: int, t: Stages)
    requires Twice(db, rules, docs, now, s, later, t) && FindAlike(s.vendors, t.vendors) && FindAlike(s.families, t.families)
    ensures FindAlike(s.products, t.listed)
    ensures Gather(docs, ProductReader(rules, s.vendors, s.families)).Some?
    ensures var ds := Read(docs, ProductReader(rules, s.vendors, s.families));
      s.listed == PutAll(db.products, ds, ProductMerge(now)) && t.listed == PutAll(s.products, ds, ProductMerge(later))
  {
    hide Find, PutAll, Gather, Distinct, SameKeys, Sound, ProductMerge, Deduped;
    SoundIsDistinct(db);
    forall d | d in docs ensures ProductReader(rules, t.vendors, t.families)(d) == ProductReader(rules, s.vendors, s.families)(d) {}
    SameReadings(docs, ProductReader(rules, s.vendors, s.families), ProductReader(rules, t.vendors, t.families));
    SecondRoundAddsNone(db.products, Read(docs, ProductReader(rules, s.vendors, s.families)), ProductMerge(now), s.products, ProductMerge(later));
    SameKeysFindAlike(s.products, t.listed);
  }

  lemma LinkingAgain(db: Db, rules: Rules, docs: seq<Document>, now: int, s: Stages, later: int, t: Stages)
    requires Twice(db, rules, docs, now, s, later, t) && FindAlike(s.products, t.listed)
    ensures FindAlike(s.products, t.products)
    ensures Gather(docs, EdgeReader(rules, s.listed)).Some?
    ensures var es := Read(docs, EdgeReader(rules, s.listed));
      s.products == PutAll(s.listed, es, EdgeMerge()) && t.products == PutAll(t.listed, es, EdgeMerge())
  {
    hide Find, PutAll, Gather, Distinct, SameKeys, Sound, EdgeMerge, ResolveEdges;
    EdgesAddNone(rules, docs, s.listed, s.products);
    EdgesAddNone(rules, docs, t.listed, t.products);
    forall d | d in docs ensures EdgeReader(rules, t.listed)(d) == EdgeReader(rules, s.listed)(d) {
      if d.product.Some? && Find(s.listed, d.product.value.slug).Some? {
        SameFindSameTargets(rules, s.listed, t.listed, Find(s.listed, d.product.value.slug).value, d.relationships);
      }
    }
    SameReadings(docs, EdgeReader(rules, s.listed), EdgeReader(rules, t.listed));
    SameKeysCompose(s.products, t.listed, t.products);
    SameKeysFindAlike(s.products, t.products);
  }

  lemma SourcesAgain(db: Db, rules: Rules, docs: seq<Document>, now: int, s: Stages, later: int, t: Stages)
    requires Twice(db, rules, docs, now, s, later, t) && FindAlike(s.vendors, t.vendors) && FindAlike(s.products, t.products)
    ensures FindAlike(s.sources, t.sources)
    ensures Gather(docs, SourceReader(rules, s.vendors, s.products)).Some?
    ensures var ds := Read(docs, SourceReader(rules, s.vendors, s.products));
      s.sources == PutAll(db.sources, ds, SourceMerge(now)) && t.sources == PutAll(s.sources, ds, SourceMerge(later))
  {
    hide Find, PutAll, Gather, Distinct, SameKeys, Sound, SourceMerge;
    SoundIsDistinct(db);
    forall d | d in docs ensures SourceReader(rules, t.vendors, t.products)(d) == SourceReader(rules, s.vendors, s.products)(d) {}
    SameReadings(docs, SourceReader(rules, s.vendors, s.products), SourceReader(rules, t.vendors, t.products));
    ExtendsItself(s.sources);
    SecondRoundAddsNone(db.sources, Read(docs, SourceReader(rules, s.vendors, s.products)), SourceMerge(now), s.sources, SourceMerge(later));
    SameKeysFindAlike(s.sources, t.sources);
  }

  // ---------------------------------------------------------------------------------------------
  // Syncing again changes nothing
  // ---------------------------------------------------------------------------------------------

  /** All merges but that of sources forget the declarations before the last. */
  lemma MergesAbsorb(now: int)
    ensures Absorbs(VendorMerge(now)) && Absorbs(CategoryMerge()) && Absorbs(ParentMerge()) && Absorbs(FamilyMerge())
    ensures Absorbs(ProductMerge(now)) && Absorbs(EdgeMerge())
  {
  }

  lemma SameVendors(db: Db, rules: Rules, docs: seq<Document>, now: int, s: Stages, later: int, t: Stages, slug: string)
    requires Twice(db, rules, docs, now, s, later, t)
    ensures SeeVendor(After(t), slug) == SeeVendor(After(s), slug)
  {
    hide Find, Get, PutAll, Gather, Distinct, Sound, VendorReader, Fold, Last, FindAlike, Pass;
    VendorsAgain(db, rules, docs, now, s, later, t);
    SoundIsDistinct(db);
    var ds := Read(docs, VendorReader(rules));
    PutAllFolds(db.vendors, ds, VendorMerge(now), slug);
    PutAllFolds(s.vendors, ds, VendorMerge(later), slug);
    MergesAbsorb(now);
    MergesAbsorb(later);
    LastWins(Get(db.vendors, slug), ds, VendorMerge(now), slug);
    LastWins(Get(s.vendors, slug), ds, VendorMerge(later), slug);
  }

  lemma SameFamilies(db: Db, rules: Rules, docs: seq<Document>, now: int, s: Stages, later: int, t: Stages, k: (nat, string))
    requires Twice(db, rules, docs, now, s, later, t) && FindAlike(s.vendors, t.vendors)
    ensures Get(t.families, k) == Get(s.families, k)
  {
    hide Find, Get, PutAll, Gather, Distinct, Sound, FamilyReader, Fold, Last, FindAlike, Pass;
    FamiliesAgain(db, rules, docs, now, s, later, t);
    SoundIsDistinct(db);
    var ds := Read(docs, FamilyReader(rules, s.vendors));
    PutAllFolds(db.families, ds, FamilyMerge(), k);
    PutAllFolds(s.families, ds, FamilyMerge(), k);
    MergesAbsorb(now);
    LastWins(Get(db.families, k), ds, FamilyMerge(), k);
    LastWins(Get(s.families, k), ds, FamilyMerge(), k);
  }

  /** Whatever the parent pass reads, the pass before it read too. */
  lemma ParentsAreDeclared(rules: Rules, docs: seq<Document>, cleared: seq<Entry<string, Category>>, k: string)
    requires Gather(docs, CategoryReader(rules)).Some? && Gather(docs, ParentReader(cleared)).Some?
    ensures Last(Read(docs, ParentReader(cleared)), k).Some? ==> Last(Read(docs, CategoryReader(rules)), k).Some?
  {
    hide Find, Gather, Last;
    ReadUnder(docs, ParentReader(cleared), k);
    ReadUnder(docs, CategoryReader(rules), k);
    GatherMeans(docs, CategoryReader(rules));
    if d, e :| d in docs && ParentReader(cleared)(d) == Good(Entry(k, e)) {
      assert CategoryReader(rules)(d) == Good(Entry(k, Stated(d.path, d.category.value)));
    }
  }

  lemma SameCategories(db: Db, rules: Rules, docs: seq<Document>, now: int, s: Stages, later: int, t: Stages, k: string)
    requires Twice(db, rules, docs, now, s, later, t)
    ensures Get(t.categories, k) == Get(s.categories, k)
  {
    hide Find, Get, PutAll, Gather, Distinct, Sound, CategoryReader, ParentReader, Fold, Last, FindAlike, Pass;
    CategoriesAgain(db, rules, docs, now, s, later, t);
    SoundIsDistinct(db);
    var ds, ps := Read(docs, CategoryReader(rules)), Read(docs, ParentReader(s.cleared));
    PutAllFolds(db.categories, ds, CategoryMerge(), k);
    PutAllFolds(s.cleared, ps, ParentMerge(), k);
    PutAllFolds(s.categories, ds, CategoryMerge(), k);
    PutAllFolds(t.cleared, ps, ParentMerge(), k);
    MergesAbsorb(now);
    LastWins(Get(db.categories, k), ds, CategoryMerge(), k);
    LastWins(Get(s.cleared, k), ps, ParentMerge(), k);
    LastWins(Get(s.categories, k), ds, CategoryMerge(), k);
    LastWins(Get(t.cleared, k), ps, ParentMerge(), k);
    ParentsAreDeclared(rules, docs, s.cleared, k);
  }

  /** The relationship pass reads exactly the products the pass before it read. */
  lemma EdgesAreDeclared(rules: Rules, docs: seq<Document>, vendors: seq<Entry<string, Vendor>>, families: seq<Entry<(nat, string), Family>>,
                         listed: seq<Entry<string, Product>>, k: string)
    requires Gather(docs, ProductReader(rules, vendors, families)).Some? && Gather(docs, EdgeReader(rules, listed)).Some?
    ensures Last(Read(docs, EdgeReader(rules, listed)), k).Some? <==> Last(Read(docs, ProductReader(rules, vendors, families)), k).Some?
  {
    hide Gather, Last, EdgeReader, ProductReader;
    var edges, products := EdgeReader(rules, listed), ProductReader(rules, vendors, families);
    ReadUnder(docs, edges, k);
    ReadUnder(docs, products, k);
    GatherMeans(docs, edges);
    GatherMeans(docs, products);
    if d, e :| d in docs && edges(d) == Good(Entry(k, e)) {
      SameSlugRead(rules, vendors, families, listed, d);
      assert products(d) == Good(Entry(k, products(d).entry.value));
    }
    if d, e :| d in docs && products(d) == Good(Entry(k, e)) {
      SameSlugRead(rules, vendors, families, listed, d);
      assert edges(d) == Good(Entry(k, edges(d).entry.value));
    }
  }

  lemma SameSlugRead(rules: Rules, vendors: seq<Entry<string, Vendor>>, families: seq<Entry<(nat, string), Family>>,
                     listed: seq<Entry<string, Product>>, d: Document)
    ensures var e, p := EdgeReader(rules, listed)(d), ProductReader(rules, vendors, families)(d);
      !e.Bad? && !p.Bad? ==> (e.Good? <==> p.Good?) && (e.Good? ==> e.entry.key == p.entry.key)
  {
    hide Find, ResolveEdges, Deduped;
  }

  /** Two readings of a product apart by nothing but when it was last written. */
  predicate SameButUpdated(a: Option<Product>, b: Option<Product>) {
    a.Some? == b.Some? && (a.Some? ==> b.value == a.value.(updatedAt := b.value.updatedAt))
  }

  lemma SameProducts(db: Db, rules: Rules, docs: seq<Document>, now: int, s: Stages, later: int, t: Stages, k: string)
    requires Twice(db, rules, docs, now, s, later, t) && FindAlike(s.vendors, t.vendors) && FindAlike(s.families, t.families)
    ensures SameButUpdated(Get(s.products, k), Get(t.products, k))
  {
    hide Find, Get, PutAll, Gather, Distinct, Sound, ProductReader, EdgeReader, Fold, Last, FindAlike, Pass;
    ListingAgain(db, rules, docs, now, s, later, t);
    LinkingAgain(db, rules, docs, now, s, later, t);
    SoundIsDistinct(db);
    var ds, es := Read(docs, ProductReader(rules, s.vendors, s.families)), Read(docs, EdgeReader(rules, s.listed));
    PutAllFolds(db.products, ds, ProductMerge(now), k);
    PutAllFolds(s.listed, es, EdgeMerge(), k);
    PutAllFolds(s.products, ds, ProductMerge(later), k);
    PutAllFolds(t.listed, es, EdgeMerge(), k);
    MergesAbsorb(now);
    MergesAbsorb(later);
    LastWins(Get(db.products, k), ds, ProductMerge(now), k);
    LastWins(Get(s.listed, k), es, EdgeMerge(), k);
    LastWins(Get(s.products, k), ds, ProductMerge(later), k);
    LastWins(Get(t.listed, k), es, EdgeMerge(), k);
    EdgesAreDeclared(rules, docs, s.vendors, s.families, s.listed, k);
  }

  // ---------------------------------------------------------------------------------------------
  // Sources, whose health sticks at the first value past discovered
  // ---------------------------------------------------------------------------------------------

  /** A health past discovered outlasts every later declaration. */
  lemma {:induction false} HealthSticks(v: Option<Source>, ds: seq<Entry<(nat, string), ResolvedSource>>, now: int, k: (nat, string))
    requires v.Some?
    ensures var w := Fold(v, ds, SourceMerge(now), k);
      && w.Some? && w.value.detection == v.value.detection
      && (v.value.health != DISCOVERED ==> w.value.health == v.value.health)
  {
    if |ds| > 0 { HealthSticks(v, ds[..|ds| - 1], now, k); }
  }

  predicate AllDiscovered(ds: seq<Entry<(nat, string), ResolvedSource>>, k: (nat, string)) {
    forall d | d in ds && d.key == k :: d.value.doc.health == DISCOVERED
  }

  predicate AllHealthy(ds: seq<Entry<(nat, string), ResolvedSource>>) {
    forall d | d in ds :: d.value.doc.health in HEALTHS
  }

  /** A source left discovered was declared nothing else. */
  lemma {:induction false} DiscoveredThroughout(v: Option<Source>, ds: seq<Entry<(nat, string), ResolvedSource>>, now: int, k: (nat, string))
    requires AllHealthy(ds)
    ensures var w := Fold(v, ds, SourceMerge(now), k);
      w.Some? && w.value.health == DISCOVERED ==> AllDiscovered(ds, k)
  {
    if |ds| > 0 {
      var n := |ds| - 1;
      assert ds == ds[..n] + [ds[n]] && ds[n] in ds;
      assert "" !in HEALTHS;
      DiscoveredThroughout(v, ds[..n], now, k);
      FoldedIsThere(v, ds[..n], SourceMerge(now), k);
      LastIsDeclared(ds[..n], k);
    }
  }

  lemma {:induction false} StaysDiscovered(v: Option<Source>, ds: seq<Entry<(nat, string), ResolvedSource>>, now: int, k: (nat, string))
    requires v.Some? && v.value.health == DISCOVERED && AllDiscovered(ds, k)
    ensures Fold(v, ds, SourceMerge(now), k).Some? && Fold(v, ds, SourceMerge(now), k).value.health == DISCOVERED
  {
    if |ds| > 0 {
      var n := |ds| - 1;
      assert ds == ds[..n] + [ds[n]] && ds[n] in ds;
      StaysDiscovered(v, ds[..n], now, k);
    }
  }

  /** Details, product and path are the last declaration's. */
  lemma {:induction false} DetailsAreLast(v: Option<Source>, ds: seq<Entry<(nat, string), ResolvedSource>>, now: int, k: (nat, string))
    ensures var w, d := Fold(v, ds, SourceMerge(now), k), Last(ds, k);
      if d.None? then w == v
      else w.Some? && w.value.product == d.value.product && w.value.details == d.value.doc.details && w.value.path == d.value.path
  {
    if |ds| > 0 { DetailsAreLast(v, ds[..|ds| - 1], now, k); }
  }

  /** Folding the same declarations into a source twice is folding them once, however often they repeat its key. */
  lemma FoldingSourcesAgain(v: Option<Source>, ds: seq<Entry<(nat, string), ResolvedSource>>, now: int, later: int, k: (nat, string))
    requires AllHealthy(ds)
    ensures var w := Fold(v, ds, SourceMerge(now), k); Fold(w, ds, SourceMerge(later), k) == w
  {
    hide Fold, Last, AllDiscovered, SourceMerge;
    var w := Fold(v, ds, SourceMerge(now), k);
    DetailsAreLast(v, ds, now, k);
    DetailsAreLast(w, ds, later, k);
    if w.Some? {
      HealthSticks(w, ds, later, k);
      if w.value.health == DISCOVERED {
        DiscoveredThroughout(v, ds, now, k);
        StaysDiscovered(w, ds, later, k);
      }
    }
  }

  lemma SameSources(db: Db, rules: Rules, docs: seq<Document>, now: int, s: Stages, later: int, t: Stages, k: (nat, string))
    requires Twice(db, rules, docs, now, s, later, t) && FindAlike(s.vendors, t.vendors) && FindAlike(s.products, t.products)
    ensures Get(t.sources, k) == Get(s.sources, k)
  {
    hide Find, Get, PutAll, Gather, Distinct, Sound, Fold, Last, FindAlike, Pass, SourceMerge;
    SourcesAgain(db, rules, docs, now, s, later, t);
    SoundIsDistinct(db);
    var read := SourceReader(rules, s.vendors, s.products);
    var ds := Read(docs, read);
    forall d | d in ds ensures d.value.doc.health in HEALTHS { var j := ReadFrom(docs, read, d); }
    PutAllFolds(db.sources, ds, SourceMerge(now), k);
    PutAllFolds(s.sources, ds, SourceMerge(later), k);
    FoldingSourcesAgain(Get(db.sources, k), ds, now, later, k);
  }

  // ---------------------------------------------------------------------------------------------
  // The theorem
  // ---------------------------------------------------------------------------------------------

  /** What was acceptable once is acceptable to the database it left. */
  lemma AcceptedAgain(db: Db, rules: Rules, docs: seq<Document>, now: int, s: Stages)
    requires Sound(db) && Staged(db, rules, docs, now, s) && Accepts(db, rules, docs) && Grown(db, s)
    ensures Accepts(After(s), rules, docs)
  {
    hide Find, Get, Sound, Staged, Distinct;
    FoundStaysThroughout(db, s);
    forall vendor, slug | KnownFamily(db, docs, vendor, slug) ensures KnownFamily(After(s), docs, vendor, slug) {
      if SeeFamily(db, vendor, slug).Some? {
        var k := (Find(db.vendors, vendor).value, slug);
        FoundStays(db.vendors, s.vendors, vendor);
        FoundStays(db.families, s.families, k);
        FoundIsGot(db.families, k);
        FoundIsGot(s.families, k);
      }
    }
    AcceptsIsMonotone(db, After(s), rules, docs);
  }

  lemma FoundStaysThroughout(db: Db, s: Stages)
    requires Grown(db, s)
    ensures forall slug | Find(db.vendors, slug).Some? :: Find(s.vendors, slug).Some?
    ensures forall slug | Find(db.categories, slug).Some? :: Find(s.categories, slug).Some?
    ensures forall slug | Find(db.products, slug).Some? :: Find(s.products, slug).Some?
  {
    hide Find, Distinct;
    forall slug | Find(db.vendors, slug).Some? ensures Find(s.vendors, slug).Some? { FoundStays(db.vendors, s.vendors, slug); }
    forall slug | Find(db.categories, slug).Some? ensures Find(s.categories, slug).Some? { FoundStays(db.categories, s.categories, slug); }
    forall slug | Find(db.products, slug).Some? ensures Find(s.products, slug).Some? { FoundStays(db.products, s.products, slug); }
  }

  lemma AcceptsIsMonotone(db: Db, next: Db, rules: Rules, docs: seq<Document>)
    requires Accepts(db, rules, docs)
    requires forall slug | KnownVendor(db, docs, slug) :: KnownVendor(next, docs, slug)
    requires forall slug | KnownCategory(db, docs, slug) :: KnownCategory(next, docs, slug)
    requires forall slug | KnownProduct(db, docs, slug) :: KnownProduct(next, docs, slug)
    requires forall vendor, slug | KnownFamily(db, docs, vendor, slug) :: KnownFamily(next, docs, vendor, slug)
    ensures Accepts(next, rules, docs)
  {
    hide KnownVendor, KnownCategory, KnownProduct, KnownFamily;
    forall d | d in docs
      ensures ParentOk(next, docs, d) && FamilyOk(next, rules, docs, d) && ProductOk(next, rules, docs, d)
      ensures EdgesOk(next, rules, docs, d) && SourceOk(next, rules, docs, d)
    {
      assert ParentOk(db, docs, d) && FamilyOk(db, rules, docs, d) && ProductOk(db, rules, docs, d)
        && EdgesOk(db, rules, docs, d) && SourceOk(db, rules, docs, d);
    }
  }

  /** References found in the same places read as the same slugs. */
  lemma SeenAlike(a: Db, b: Db)
    requires SameIdentifiers(a, b) && FindAlike(a.vendors, b.vendors)
    requires forall slug :: SeeVendor(b, slug) == SeeVendor(a, slug)
    requires forall slug :: Get(b.categories, slug) == Get(a.categories, slug)
    requires forall k :: Get(b.families, k) == Get(a.families, k)
    requires forall slug :: SameButUpdated(Get(a.products, slug), Get(b.products, slug))
    requires forall k :: Get(b.sources, k) == Get(a.sources, k)
    ensures SameBySlug(a, b)
  {
    hide Find, Get, SeeVendor;
    forall slug ensures SeeProduct(a, slug) == SeeProduct(b, slug) {
      assert SameButUpdated(Get(a.products, slug), Get(b.products, slug));
      if Get(a.products, slug).Some? {
        var edges := Get(a.products, slug).value.edges;
        assert SeeEdges(a, edges) == SeeEdges(b, edges);
      }
    }
  }

  /**
   A successful sync is idempotent, whatever its documents repeat: the same documents, at any later time,
   succeed again, and leave every row under its identifier and the database, seen by slug, as it was. Only
   update times and the identifiers of aliases and edges, which are not seen, may differ.
   */
  lemma SyncIsIdempotent(db: Db, rules: Rules, docs: seq<Document>, now: int, later: int)
    requires Sound(db) && Sync(db, rules, docs, now).Some?
    ensures var next := Sync(db, rules, docs, now).value;
      && Sync(next, rules, docs, later).Some?
      && SameIdentifiers(next, Sync(next, rules, docs, later).value)
      && SameBySlug(next, Sync(next, rules, docs, later).value)
  {
    hide Sync, Accepts, Sound, Staged, SeeVendor, Grown, SameKeys, SameButUpdated, SameBySlug, Find, Get;
    var next := Sync(db, rules, docs, now).value;
    var s := StagesOf(db, rules, docs, now);
    SyncStaysSound(db, rules, docs, now);
    SyncSucceedsIff(db, rules, docs, now);
    StagesGrow(db, rules, docs, now, s);
    AcceptedAgain(db, rules, docs, now, s);
    SyncSucceedsIff(next, rules, docs, later);
    var t := StagesOf(next, rules, docs, later);
    StagesGrow(next, rules, docs, later, t);
    VendorsAgain(db, rules, docs, now, s, later, t);
    CategoriesAgain(db, rules, docs, now, s, later, t);
    FamiliesAgain(db, rules, docs, now, s, later, t);
    ListingAgain(db, rules, docs, now, s, later, t);
    LinkingAgain(db, rules, docs, now, s, later, t);
    SourcesAgain(db, rules, docs, now, s, later, t);
    forall slug ensures SeeVendor(After(t), slug) == SeeVendor(next, slug) { SameVendors(db, rules, docs, now, s, later, t, slug); }
    forall slug ensures Get(t.categories, slug) == Get(s.categories, slug) { SameCategories(db, rules, docs, now, s, later, t, slug); }
    forall k ensures Get(t.families, k) == Get(s.families, k) { SameFamilies(db, rules, docs, now, s, later, t, k); }
    forall slug ensures SameButUpdated(Get(s.products, slug), Get(t.products, slug)) { SameProducts(db, rules, docs, now, s, later, t, slug); }
    forall k ensures Get(t.sources, k) == Get(s.sources, k) { SameSources(db, rules, docs, now, s, later, t, k); }
    SeenAlike(next, After(t));
  }
}
