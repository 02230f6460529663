/**
 SyncRegistry.Execute as it is written: loops over the documents that look up, merge and upsert one row at
 a time. Proved to do what Registry.Sync says whenever it succeeds; like the original, it does not undo
 the rows it wrote before a document it refuses.
 */
module RegistryStore {
  import opened Wrappers
  import opened Keyed
  import opened Registry

  /** One more document of a pass: skipped, refused, or upserted. */
  lemma PassStep<K, V, D>(t: seq<Entry<K, V>>, docs: seq<Document>, i: nat, read: Document -> Reading<Entry<K, D>>, merge: (Option<V>, D) -> V)
    requires i < |docs| && Pass(t, docs[..i], read, merge).Some?
    ensures var before := Pass(t, docs[..i], read, merge).value;
      Pass(t, docs[..i + 1], read, merge) ==
        match read(docs[i])
        case Skip => Some(before)
        case Bad => None
        case Good(e) => Some(Put(before, e.key, merge(Get(before, e.key), e.value)))
  {
    assert docs[..i + 1][..i] == docs[..i];
    var ds := Gather(docs[..i], read).value;
    if read(docs[i]).Good? { PutAllStep(t, ds, read(docs[i]).entry, merge); }
  }

  /** A pass that refuses a document refuses every list that begins that way. */
  lemma {:induction false} RefusalStands<K, V, D>(t: seq<Entry<K, V>>, docs: seq<Document>, i: nat,
                                                  read: Document -> Reading<Entry<K, D>>, merge: (Option<V>, D) -> V)
    requires i <= |docs| && Pass(t, docs[..i], read, merge).None?
    ensures Pass(t, docs, read, merge).None?
    decreases |docs| - i
  {
    if i < |docs| {
      assert docs[..i + 1][..i] == docs[..i];
      RefusalStands(t, docs, i + 1, read, merge);
    } else {
      assert docs[..i] == docs;
    }
  }

  lemma PassStarts<K, V, D>(t: seq<Entry<K, V>>, docs: seq<Document>, read: Document -> Reading<Entry<K, D>>, merge: (Option<V>, D) -> V)
    ensures Pass(t, docs[..0], read, merge) == Some(t) && docs[..|docs|] == docs
  {
    assert docs[..0] == [];
  }

  class Database {
    var vendors: seq<Entry<string, Vendor>>
    var categories: seq<Entry<string, Category>>
    var families: seq<Entry<(nat, string), Family>>
    var products: seq<Entry<string, Product>>
    var sources: seq<Entry<(nat, string), Source>>

    function View(): Db
      reads this
    {
      Db(vendors, categories, families, products, sources)
    }

    method SyncVendors(rules: Rules, docs: seq<Document>, now: int) returns (ok: bool)
      modifies this`vendors
      ensures var r := Pass(old(vendors), docs, VendorReader(rules), VendorMerge(now));
        ok == r.Some? && (ok ==> vendors == r.value)
    {
      hide Pass, Find;
      var read, merge := VendorReader(rules), VendorMerge(now);
      ghost var was := vendors;
      PassStarts(was, docs, read, merge);
      for i := 0 to |docs|
        invariant Pass(was, docs[..i], read, merge) == Some(vendors)
      {
        PassStep(was, docs, i, read, merge);
        var d := docs[i];
        if d.vendor.None? { continue; }
        var v := d.vendor.value;
        if !rules.vendor(v) {
          RefusalStands(was, docs, i + 1, read, merge);
          return false;
        }
        var existing := Find(vendors, v.slug);
        var row := Vendor(v.details, now, now, d.path);
        if existing.Some? {
          row := row.(createdAt := vendors[existing.value].value.createdAt);
          vendors := vendors[existing.value := Entry(v.slug, row)];
        } else {
          vendors := vendors + [Entry(v.slug, row)];
        }
      }
      return true;
    }

    method SyncCategories(rules: Rules, docs: seq<Document>) returns (ok: bool)
      modifies this`categories
      ensures var r := Pass(old(categories), docs, CategoryReader(rules), CategoryMerge());
        ok == r.Some? && (ok ==> categories == r.value)
    {
      hide Pass, Find;
      var read, merge := CategoryReader(rules), CategoryMerge();
      ghost var was := categories;
      PassStarts(was, docs, read, merge);
      for i := 0 to |docs|
        invariant Pass(was, docs[..i], read, merge) == Some(categories)
      {
        PassStep(was, docs, i, read, merge);
        var d := docs[i];
        if d.category.None? { continue; }
        var c := d.category.value;
        if !rules.category(c) {
          RefusalStands(was, docs, i + 1, read, merge);
          return false;
        }
        var existing := Find(categories, c.slug);
        var row := Category(c.details, None, d.path);
        if existing.Some? {
          categories := categories[existing.value := Entry(c.slug, row)];
        } else {
          categories := categories + [Entry(c.slug, row)];
        }
      }
      return true;
    }

    method LinkParents(docs: seq<Document>) returns (ok: bool)
      modifies this`categories
      ensures var r := Pass(old(categories), docs, ParentReader(old(categories)), ParentMerge());
        ok == r.Some? && (ok ==> categories == r.value)
    {
      hide Pass, Find;
      ghost var was := categories;
      ghost var read, merge := ParentReader(was), ParentMerge();
      PassStarts(was, docs, read, merge);
      for i := 0 to |docs|
        invariant Pass(was, docs[..i], read, merge) == Some(categories)
        invariant |categories| == |was| && (forall k :: Find(categories, k) == Find(was, k))
      {
        PassStep(was, docs, i, read, merge);
        var d := docs[i];
        if d.category.None? || d.category.value.parent.None? { continue; }
        var slug := d.category.value.slug;
        var self := Find(categories, slug);
        var parent := Find(categories, d.category.value.parent.value);
        if self.None? || slug == d.category.value.parent.value || parent.None? {
          RefusalStands(was, docs, i + 1, read, merge);
          return false;
        }
        var row := categories[self.value].value;
        ghost var before := categories;
        if row.parent != parent {
          categories := categories[self.value := Entry(slug, row.(parent := parent))];
        }
        assert categories == Put(before, slug, row.(parent := parent)) by {
          assert before[self.value] == Entry(slug, row);
          assert row.parent == parent ==> before[self.value := Entry(slug, row)] == before;
        }
        ReplacedRowKeepsKeys(before, self.value, Entry(slug, row.(parent := parent)));
      }
      return true;
    }

    method SyncFamilies(rules: Rules, docs: seq<Document>) returns (ok: bool)
      modifies this`families
      ensures var r := Pass(old(families), docs, FamilyReader(rules, vendors), FamilyMerge());
        ok == r.Some? && (ok ==> families == r.value)
    {
      hide Pass, Find;
      ghost var read, merge := FamilyReader(rules, vendors), FamilyMerge();
      ghost var was := families;
      PassStarts(was, docs, read, merge);
      for i := 0 to |docs|
        invariant Pass(was, docs[..i], read, merge) == Some(families)
      {
        PassStep(was, docs, i, read, merge);
        var d := docs[i];
        if d.family.None? { continue; }
        var f := d.family.value;
        var vendor := Find(vendors, f.vendor);
        if vendor.None? || !rules.family(f) {
          RefusalStands(was, docs, i + 1, read, merge);
          return false;
        }
        var key := (vendor.value, f.slug);
        var existing := Find(families, key);
        if existing.Some? {
          families := families[existing.value := Entry(key, Family(f.details, d.path))];
        } else {
          families := families + [Entry(key, Family(f.details, d.path))];
        }
      }
      return true;
    }

    /** The alias loop: the first spelling of each normalised form. */
    method CollectAliases(aliases: seq<Alias>) returns (kept: seq<Alias>)
      ensures kept == Deduped(aliases)
    {
      hide Mentions;
      kept := [];
      var seen: set<string> := {};
      NoneMentioned();
      for i := 0 to |aliases|
        invariant kept == Deduped(aliases[..i])
        invariant forall n :: n in seen <==> Mentions(kept, n)
      {
        assert aliases[..i + 1][..i] == aliases[..i];
        var a := aliases[i];
        if a.normalized in seen { continue; }
        seen := seen + {a.normalized};
        forall n ensures Mentions(kept + [a], n) <==> Mentions(kept, n) || a.normalized == n { MentionsOneMore(kept, a, n); }
        kept := kept + [a];
      }
      assert aliases[..|aliases|] == aliases;
    }

    method SyncProducts(rules: Rules, docs: seq<Document>, now: int) returns (ok: bool)
      modifies this`products
      ensures var r := Pass(old(products), docs, ProductReader(rules, vendors, families), ProductMerge(now));
        ok == r.Some? && (ok ==> products == r.value)
    {
      hide Pass, Find, Deduped;
      ghost var read, merge := ProductReader(rules, vendors, families), ProductMerge(now);
      ghost var was := products;
      PassStarts(was, docs, read, merge);
      for i := 0 to |docs|
        invariant Pass(was, docs[..i], read, merge) == Some(products)
      {
        PassStep(was, docs, i, read, merge);
        var d := docs[i];
        if d.product.None? { continue; }
        var p := d.product.value;
        var vendor := Find(vendors, p.vendor);
        if vendor.None? {
          RefusalStands(was, docs, i + 1, read, merge);
          return false;
        }
        var family := None;
        if p.family.Some? { family := Find(families, (vendor.value, p.family.value)); }
        if (p.family.Some? && family.None?) || !rules.product(p) {
          RefusalStands(was, docs, i + 1, read, merge);
          return false;
        }
        var aliases := CollectAliases(d.aliases);
        var row := Product(vendor.value, family, p.details, now, now, d.path, aliases, []);
        var existing := Find(products, p.slug);
        if existing.Some? {
          var stored := products[existing.value].value;
          row := row.(createdAt := stored.createdAt, edges := stored.edges);
          products := products[existing.value := Entry(p.slug, row)];
        } else {
          products := products + [Entry(p.slug, row)];
        }
      }
      return true;
    }

    /** The inner relationship loop. */
    method CollectEdges(rules: Rules, from: nat, docs: seq<EdgeDoc>) returns (edges: Option<seq<Edge>>)
      ensures edges == ResolveEdges(rules, products, from, docs)
    {
      hide Find;
      var resolved := [];
      for i := 0 to |docs|
        invariant ResolveEdges(rules, products, from, docs[..i]) == Some(resolved)
      {
        assert docs[..i + 1][..i] == docs[..i];
        var target := Find(products, docs[i].target);
        if target.None? || !rules.kind(docs[i].kind) || target.value == from {
          EdgeRefusalStands(rules, products, from, docs, i + 1);
          return None;
        }
        resolved := resolved + [Edge(docs[i].kind, target.value)];
      }
      assert docs[..|docs|] == docs;
      return Some(resolved);
    }

    method LinkProducts(rules: Rules, docs: seq<Document>) returns (ok: bool)
      modifies this`products
      ensures var r := Pass(old(products), docs, EdgeReader(rules, old(products)), EdgeMerge());
        ok == r.Some? && (ok ==> products == r.value)
    {
      hide Pass, Find, ResolveEdges;
      ghost var was := products;
      ghost var read, merge := EdgeReader(rules, was), EdgeMerge();
      PassStarts(was, docs, read, merge);
      for i := 0 to |docs|
        invariant Pass(was, docs[..i], read, merge) == Some(products)
        invariant |products| == |was| && (forall k :: Find(products, k) == Find(was, k))
      {
        PassStep(was, docs, i, read, merge);
        var d := docs[i];
        if d.product.None? {
          if |d.relationships| > 0 {
            RefusalStands(was, docs, i + 1, read, merge);
            return false;
          }
          continue;
        }
        var slug := d.product.value.slug;
        var from := Find(products, slug);
        if from.None? {
          RefusalStands(was, docs, i + 1, read, merge);
          return false;
        }
        var edges := CollectEdges(rules, from.value, d.relationships);
        SameFindSameTargets(rules, was, products, from.value, d.relationships);
        if edges.None? {
          RefusalStands(was, docs, i + 1, read, merge);
          return false;
        }
        var row := products[from.value].value.(edges := edges.value);
        ReplacedRowKeepsKeys(products, from.value, Entry(slug, row));
        products := products[from.value := Entry(slug, row)];
      }
      return true;
    }

    method SyncSources(rules: Rules, docs: seq<Document>, now: int) returns (ok: bool)
      modifies this`sources
      ensures var r := Pass(old(sources), docs, SourceReader(rules, vendors, products), SourceMerge(now));
        ok == r.Some? && (ok ==> sources == r.value)
    {
      hide Pass, Find;
      ghost var read, merge := SourceReader(rules, vendors, products), SourceMerge(now);
      ghost var was := sources;
      PassStarts(was, docs, read, merge);
      for i := 0 to |docs|
        invariant Pass(was, docs[..i], read, merge) == Some(sources)
      {
        PassStep(was, docs, i, read, merge);
        var d := docs[i];
        if d.source.None? { continue; }
        var s := d.source.value;
        var vendor := Find(vendors, s.vendor);
        var product := None;
        if s.product.Some? { product := Find(products, s.product.value); }
        if vendor.None? || (s.product.Some? && product.None?) || !rules.source(s) || s.health !in HEALTHS {
          RefusalStands(was, docs, i + 1, read, merge);
          return false;
        }
        var key := (vendor.value, s.slug);
        var row := Source(product, s.details, s.health, s.detection, d.path);
        var existing := Find(sources, key);
        if existing.Some? {
          var stored := sources[existing.value].value;
          row := row.(detection := stored.detection);
          if stored.health != DISCOVERED { row := row.(health := stored.health); }
          sources := sources[existing.value := Entry(key, row)];
        } else {
          if s.detection.nextCheckAt == 0 { row := row.(detection := s.detection.(nextCheckAt := now)); }
          if s.health == "" { row := row.(health := DISCOVERED); }
          sources := sources + [Entry(key, row)];
        }
      }
      return true;
    }

    /** SyncRegistry.Execute. */
    method Execute(rules: Rules, docs: seq<Document>, now: int) returns (ok: bool)
      modifies this
      ensures ok == Sync(old(View()), rules, docs, now).Some?
      ensures ok ==> View() == Sync(old(View()), rules, docs, now).value
    {
      hide Pass;
      ok := SyncVendors(rules, docs, now);
      if !ok { return; }
      ok := SyncCategories(rules, docs);
      if !ok { return; }
      ok := LinkParents(docs);
      if !ok { return; }
      ok := SyncFamilies(rules, docs);
      if !ok { return; }
      ok := SyncProducts(rules, docs, now);
      if !ok { return; }
      ok := LinkProducts(rules, docs);
      if !ok { return; }
      ok := SyncSources(rules, docs, now);
    }
  }

  lemma NoneMentioned()
    ensures forall n :: !Mentions([], n)
  {
  }

  lemma {:induction false} EdgeRefusalStands(rules: Rules, products: seq<Entry<string, Product>>, from: nat, docs: seq<EdgeDoc>, i: nat)
    requires i <= |docs| && ResolveEdges(rules, products, from, docs[..i]).None?
    ensures ResolveEdges(rules, products, from, docs).None?
    decreases |docs| - i
  {
    if i < |docs| {
      assert docs[..i + 1][..i] == docs[..i];
      EdgeRefusalStands(rules, products, from, docs, i + 1);
    } else {
      assert docs[..i] == docs;
    }
  }

  /** A row replaced under its own key is found where it was, and so is every other. */
  lemma {:induction false} ReplacedRowKeepsKeys<K, V>(t: seq<Entry<K, V>>, i: nat, e: Entry<K, V>)
    requires i < |t| && t[i].key == e.key
    ensures forall k :: Find(t[i := e], k) == Find(t, k)
  {
    var n := |t| - 1;
    if i < n {
      ReplacedRowKeepsKeys(t[..n], i, e);
      assert t[i := e][..n] == t[..n][i := e];
    } else {
      assert t[i := e][..n] == t[..n];
    }
  }
}
