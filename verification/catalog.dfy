/**
 The product-catalog editor: a list of catalogs, the catalog currently
 selected (a copy of a list entry), the name typed for a new catalog and the
 product being drafted. Each handler is a function from state to state.
 */
module ProductCatalog {

  import opened Wrappers
  import opened Text
  import Seqs

  datatype Product = Product(id: int, name: string, colors: string, sizes: string, photoUrl: string)

  /** The product form: a product without an id yet. */
  datatype ProductDraft = ProductDraft(name: string, colors: string, sizes: string, photoUrl: string)

  const EmptyDraft := ProductDraft("", "", "", "")

  datatype Catalog = Catalog(id: int, name: string, products: seq<Product>)

  datatype CatalogState = CatalogState(
    catalogs: seq<Catalog>,
    selectedCatalog: Option<Catalog>,
    newCatalogName: string,
    newProduct: ProductDraft)

  /** The product a draft becomes once it is given an id. */
  function WithId(d: ProductDraft, id: int): Product
  {
    Product(id, d.name, d.colors, d.sizes, d.photoUrl)
  }

  predicate CatalogIdFresh(cs: seq<Catalog>, id: int)
  {
    forall i :: 0 <= i < |cs| ==> cs[i].id != id
  }

  predicate ProductIdFresh(ps: seq<Product>, id: int)
  {
    forall i :: 0 <= i < |ps| ==> ps[i].id != id
  }

  predicate UniqueCatalogIds(cs: seq<Catalog>)
  {
    Seqs.DistinctBy(cs, (c: Catalog) => c.id)
  }

  /** A name counts as blank when `trim` leaves nothing of it. */
  predicate IsBlank(s: string)
  {
    Trim(s) == []
  }

  /** The "add catalog" button. A blank name changes nothing; otherwise a
      catalog with that name (untrimmed), id `freshId` and no products is
      appended and the name field is cleared. */
  function AddCatalog(st: CatalogState, freshId: int): (r: CatalogState)
    requires !IsBlank(st.newCatalogName) ==> CatalogIdFresh(st.catalogs, freshId)
    ensures IsBlank(st.newCatalogName) ==> r == st
    ensures !IsBlank(st.newCatalogName) ==>
      && |r.catalogs| == |st.catalogs| + 1
      && r.catalogs[..|st.catalogs|] == st.catalogs
      && r.catalogs[|st.catalogs|] == Catalog(freshId, st.newCatalogName, [])
      && r.newCatalogName == ""
      && r.selectedCatalog == st.selectedCatalog && r.newProduct == st.newProduct
  {
    if !IsBlank(st.newCatalogName) then
      st.(catalogs := st.catalogs + [Catalog(freshId, st.newCatalogName, [])], newCatalogName := "")
    else st
  }

  /** The "delete" button of a catalog: every catalog with that id goes, the
      rest keep their order; the selection is dropped exactly when it has
      that id. */
  function DeleteCatalog(st: CatalogState, id: int): (r: CatalogState)
    ensures Seqs.IsSubsequence(r.catalogs, st.catalogs)
    ensures forall c :: c in r.catalogs <==> c in st.catalogs && c.id != id
    ensures r.selectedCatalog.None? <==> st.selectedCatalog.None? || st.selectedCatalog.value.id == id
    ensures r.selectedCatalog.Some? ==> r.selectedCatalog == st.selectedCatalog
    ensures r.newCatalogName == st.newCatalogName && r.newProduct == st.newProduct
  {
    var catalogs := Seqs.Filter(st.catalogs, (c: Catalog) => c.id != id);
    var selected :=
      if st.selectedCatalog.Some? && st.selectedCatalog.value.id == id then None
      else st.selectedCatalog;
    st.(catalogs := catalogs, selectedCatalog := selected)
  }

  /** Each catalog with another id is kept as many times as it is listed;
      none with that id is kept. */
  lemma DeleteCatalogCounts(st: CatalogState, id: int)
    ensures forall c :: multiset(DeleteCatalog(st, id).catalogs)[c] ==
                          if c.id != id then multiset(st.catalogs)[c] else 0
  {
    Seqs.FilterCounts(st.catalogs, (c: Catalog) => c.id != id);
  }

  /** Clicking a catalog's name selects it. */
  function SelectCatalog(st: CatalogState, c: Catalog): (r: CatalogState)
    ensures r.selectedCatalog == Some(c)
    ensures r.(selectedCatalog := st.selectedCatalog) == st
  {
    st.(selectedCatalog := Some(c))
  }

  /** `sel` with its product list replaced, written back over every list entry
      with its id; the new copy also becomes the selection. */
  function WriteBack(st: CatalogState, sel: Catalog, products: seq<Product>): (r: CatalogState)
    ensures r.selectedCatalog == Some(sel.(products := products))
    ensures |r.catalogs| == |st.catalogs|
    ensures forall i :: 0 <= i < |st.catalogs| ==>
      r.catalogs[i] == if st.catalogs[i].id == sel.id then sel.(products := products) else st.catalogs[i]
    ensures r.newCatalogName == st.newCatalogName && r.newProduct == st.newProduct
  {
    var updated := sel.(products := products);
    st.(catalogs := Seqs.MapWhere(st.catalogs, (c: Catalog) => c.id == sel.id, (c: Catalog) => updated),
        selectedCatalog := Some(updated))
  }

  /** The "add product" button. Without a selection, or with a blank product
      name, nothing changes; otherwise the draft, given id `freshId`, is
      appended to the selected catalog's products, that catalog is written
      back to the list, and the form is emptied. */
  function AddProduct(st: CatalogState, freshId: int): (r: CatalogState)
    requires st.selectedCatalog.Some? && !IsBlank(st.newProduct.name) ==>
      ProductIdFresh(st.selectedCatalog.value.products, freshId)
    ensures st.selectedCatalog.None? || IsBlank(st.newProduct.name) ==> r == st
    ensures st.selectedCatalog.Some? && !IsBlank(st.newProduct.name) ==>
      var sel := st.selectedCatalog.value;
      var updated := sel.(products := sel.products + [WithId(st.newProduct, freshId)]);
      && r.selectedCatalog == Some(updated)
      && |r.catalogs| == |st.catalogs|
      && (forall i :: 0 <= i < |st.catalogs| ==>
            r.catalogs[i] == if st.catalogs[i].id == sel.id then updated else st.catalogs[i])
      && r.newProduct == EmptyDraft && r.newCatalogName == st.newCatalogName
  {
    if st.selectedCatalog.Some? && !IsBlank(st.newProduct.name) then
      var sel := st.selectedCatalog.value;
      var updated := sel.(products := sel.products + [WithId(st.newProduct, freshId)]);
      var written := WriteBack(st, sel, updated.products);
      assert written.selectedCatalog == Some(updated);
      assert forall i :: 0 <= i < |st.catalogs| ==>
        written.catalogs[i] == if st.catalogs[i].id == sel.id then updated else st.catalogs[i];
      written.(newProduct := EmptyDraft)
    else st
  }

  /** The "delete product" button, shown only for the selected catalog's
      products: every product with that id leaves the selected catalog, which
      is written back to the list; the other catalogs are untouched. */
  function DeleteProduct(st: CatalogState, productId: int): (r: CatalogState)
    requires st.selectedCatalog.Some?
    ensures var sel := st.selectedCatalog.value;
      && r.selectedCatalog.Some?
      && r.selectedCatalog.value.(products := sel.products) == sel
      && Seqs.IsSubsequence(r.selectedCatalog.value.products, sel.products)
      && (forall p :: p in r.selectedCatalog.value.products <==> p in sel.products && p.id != productId)
      && |r.catalogs| == |st.catalogs|
      && (forall i :: 0 <= i < |st.catalogs| ==>
            r.catalogs[i] == if st.catalogs[i].id == sel.id then r.selectedCatalog.value else st.catalogs[i])
      && r.newCatalogName == st.newCatalogName && r.newProduct == st.newProduct
  {
    var sel := st.selectedCatalog.value;
    WriteBack(st, sel, Seqs.Filter(sel.products, (p: Product) => p.id != productId))
  }

  /** Each product of the selected catalog with another id is kept as many
      times as it is listed; none with that id is kept. */
  lemma DeleteProductCounts(st: CatalogState, productId: int)
    requires st.selectedCatalog.Some?
    ensures var sel, r := st.selectedCatalog.value, DeleteProduct(st, productId);
      forall p :: multiset(r.selectedCatalog.value.products)[p] ==
        if p.id != productId then multiset(sel.products)[p] else 0
  {
    Seqs.FilterCounts(st.selectedCatalog.value.products, (p: Product) => p.id != productId);
  }

  /** The editor's invariant: catalog ids are unique and the selection, if
      any, is one of the listed catalogs. */
  predicate Valid(st: CatalogState)
  {
    && UniqueCatalogIds(st.catalogs)
    && (st.selectedCatalog.Some? ==> st.selectedCatalog.value in st.catalogs)
  }

  /** Under the invariant the selection equals the list entry with its id. */
  lemma SelectionIsListEntry(st: CatalogState, i: nat)
    requires Valid(st) && st.selectedCatalog.Some?
    requires i < |st.catalogs| && st.catalogs[i].id == st.selectedCatalog.value.id
    ensures st.catalogs[i] == st.selectedCatalog.value
  {
    var k :| 0 <= k < |st.catalogs| && st.catalogs[k] == st.selectedCatalog.value;
  }

  /** Selecting a listed catalog establishes the invariant. */
  lemma SelectEstablishesValid(st: CatalogState, c: Catalog)
    requires UniqueCatalogIds(st.catalogs) && c in st.catalogs
    ensures Valid(SelectCatalog(st, c))
  {
  }

  lemma AddCatalogPreservesValid(st: CatalogState, freshId: int)
    requires Valid(st)
    requires !IsBlank(st.newCatalogName) ==> CatalogIdFresh(st.catalogs, freshId)
    ensures Valid(AddCatalog(st, freshId))
  {
    var r := AddCatalog(st, freshId);
    if !IsBlank(st.newCatalogName) {
      assert forall i :: 0 <= i < |st.catalogs| ==> r.catalogs[i] == st.catalogs[i];
      if st.selectedCatalog.Some? {
        var k :| 0 <= k < |st.catalogs| && st.catalogs[k] == st.selectedCatalog.value;
        assert r.catalogs[k] == st.selectedCatalog.value;
      }
    }
  }

  lemma DeleteCatalogPreservesValid(st: CatalogState, id: int)
    requires Valid(st)
    ensures Valid(DeleteCatalog(st, id))
  {
    Seqs.FilterKeepsDistinct(st.catalogs, (c: Catalog) => c.id != id, (c: Catalog) => c.id);
  }

  /** Writing the selection back keeps the invariant: the ids do not change
      and the new selection replaces the entry it came from. */
  lemma WriteBackPreservesValid(st: CatalogState, products: seq<Product>)
    requires Valid(st) && st.selectedCatalog.Some?
    ensures Valid(WriteBack(st, st.selectedCatalog.value, products))
  {
    var sel := st.selectedCatalog.value;
    var r := WriteBack(st, sel, products);
    assert forall i :: 0 <= i < |st.catalogs| ==> r.catalogs[i].id == st.catalogs[i].id;
    var k :| 0 <= k < |st.catalogs| && st.catalogs[k] == sel;
    assert r.catalogs[k] == r.selectedCatalog.value;
  }

  lemma AddProductPreservesValid(st: CatalogState, freshId: int)
    requires Valid(st)
    requires st.selectedCatalog.Some? && !IsBlank(st.newProduct.name) ==>
      ProductIdFresh(st.selectedCatalog.value.products, freshId)
    ensures Valid(AddProduct(st, freshId))
  {
    if st.selectedCatalog.Some? && !IsBlank(st.newProduct.name) {
      var sel := st.selectedCatalog.value;
      WriteBackPreservesValid(st, sel.products + [WithId(st.newProduct, freshId)]);
    }
  }

  lemma DeleteProductPreservesValid(st: CatalogState, productId: int)
    requires Valid(st) && st.selectedCatalog.Some?
    ensures Valid(DeleteProduct(st, productId))
  {
    var sel := st.selectedCatalog.value;
    WriteBackPreservesValid(st, Seqs.Filter(sel.products, (p: Product) => p.id != productId));
  }

  /** Adding a catalog and then deleting it by its id gives back the list and
      keeps the selection. */
  lemma AddThenDeleteCatalogRestores(st: CatalogState, freshId: int)
    requires Valid(st) && CatalogIdFresh(st.catalogs, freshId)
    requires !IsBlank(st.newCatalogName)
    ensures var r := DeleteCatalog(AddCatalog(st, freshId), freshId);
      r.catalogs == st.catalogs && r.selectedCatalog == st.selectedCatalog
  {
    var keep := (c: Catalog) => c.id != freshId;
    var added := AddCatalog(st, freshId);
    assert added.catalogs == st.catalogs + [Catalog(freshId, st.newCatalogName, [])];
    Seqs.FilterAppend(st.catalogs, [Catalog(freshId, st.newCatalogName, [])], keep);
    Seqs.FilterKeepsAll(st.catalogs, keep);
    assert DeleteCatalog(added, freshId).catalogs == st.catalogs;
    if st.selectedCatalog.Some? {
      var k :| 0 <= k < |st.catalogs| && st.catalogs[k] == st.selectedCatalog.value;
      assert st.selectedCatalog.value.id != freshId;
    }
  }

  /** Adding a product and then deleting it by its id gives back the catalog
      list and the selection. */
  lemma AddThenDeleteProductRestores(st: CatalogState, freshId: int)
    requires Valid(st) && st.selectedCatalog.Some?
    requires ProductIdFresh(st.selectedCatalog.value.products, freshId)
    requires !IsBlank(st.newProduct.name)
    ensures var r := DeleteProduct(AddProduct(st, freshId), freshId);
      r.catalogs == st.catalogs && r.selectedCatalog == st.selectedCatalog
  {
    var sel := st.selectedCatalog.value;
    var keep := (p: Product) => p.id != freshId;
    Seqs.FilterAppend(sel.products, [WithId(st.newProduct, freshId)], keep);
    Seqs.FilterKeepsAll(sel.products, keep);
    var added := AddProduct(st, freshId);
    var updated := added.selectedCatalog.value;
    assert updated == sel.(products := sel.products + [WithId(st.newProduct, freshId)]);
    var r := DeleteProduct(added, freshId);
    assert r.selectedCatalog.value.products == sel.products;
    assert r.selectedCatalog == st.selectedCatalog;
    forall i | 0 <= i < |st.catalogs|
      ensures r.catalogs[i] == st.catalogs[i]
    {
      if st.catalogs[i].id == sel.id {
        SelectionIsListEntry(st, i);
      }
    }
  }

  /** Deleting the same catalog id twice has the effect of deleting it once. */
  lemma DeleteCatalogIdempotent(st: CatalogState, id: int)
    ensures DeleteCatalog(DeleteCatalog(st, id), id) == DeleteCatalog(st, id)
  {
    Seqs.FilterIdempotent(st.catalogs, (c: Catalog) => c.id != id);
  }
}
