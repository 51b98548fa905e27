/**
 The saved-filter presets of the purchase-order report and the report's
 view state: the live criteria, the preset list, the name typed in the save
 dialog, the preset being edited (if any) and whether the dialog is open.
 Each handler of the view is a function from state to state.
 */
module Presets {

  import opened Wrappers
  import opened Orders
  import Seqs

  /** A saved filter: an id, a display name and a snapshot of the criteria. */
  datatype Preset = Preset(id: string, name: string, criteria: Criteria)

  datatype ReportState = ReportState(
    criteria: Criteria,
    customFilters: seq<Preset>,
    newFilterName: string,
    editingFilter: Option<Preset>,
    isDialogOpen: bool)

  /** The state the view starts in. */
  const Initial := ReportState(NoCriteria, [], "", None, false)

  /** No preset of `ps` has id `id`. */
  predicate IdFresh(ps: seq<Preset>, id: string)
  {
    forall i :: 0 <= i < |ps| ==> ps[i].id != id
  }

  predicate UniqueIds(ps: seq<Preset>)
  {
    Seqs.DistinctBy(ps, (p: Preset) => p.id)
  }

  /** The "save" button. With a preset under edit, every preset with its id
      takes the typed name and the live criteria and the edit ends; otherwise
      a new preset with id `freshId` is appended. Either way the typed name is
      cleared and the dialog closes. No name is rejected, blank or not. */
  function SaveFilter(st: ReportState, freshId: string): (r: ReportState)
    requires st.editingFilter.None? ==> IdFresh(st.customFilters, freshId)
    ensures r.criteria == st.criteria
    ensures r.newFilterName == "" && !r.isDialogOpen && r.editingFilter.None?
    ensures st.editingFilter.None? ==>
      && |r.customFilters| == |st.customFilters| + 1
      && r.customFilters[..|st.customFilters|] == st.customFilters
      && r.customFilters[|st.customFilters|] == Preset(freshId, st.newFilterName, st.criteria)
    ensures st.editingFilter.Some? ==>
      && |r.customFilters| == |st.customFilters|
      && forall i :: 0 <= i < |st.customFilters| ==>
           var p, q := st.customFilters[i], r.customFilters[i];
           && q.id == p.id
           && (p.id == st.editingFilter.value.id ==> q.name == st.newFilterName && q.criteria == st.criteria)
           && (p.id != st.editingFilter.value.id ==> q == p)
    ensures UniqueIds(st.customFilters) ==> UniqueIds(r.customFilters)
  {
    var filters :=
      match st.editingFilter
      case Some(editing) =>
        Seqs.MapWhere(st.customFilters,
          (p: Preset) => p.id == editing.id,
          (p: Preset) => p.(name := st.newFilterName, criteria := st.criteria))
      case None =>
        st.customFilters + [Preset(freshId, st.newFilterName, st.criteria)];
    st.(customFilters := filters, editingFilter := None, newFilterName := "", isDialogOpen := false)
  }

  /** Clicking a preset's name: its criteria snapshot replaces all four live
      criteria at once; nothing else changes. */
  function ApplyFilter(st: ReportState, p: Preset): (r: ReportState)
    ensures r.criteria == p.criteria
    ensures r.(criteria := st.criteria) == st
  {
    st.(criteria := p.criteria)
  }

  /** The "edit" button of a preset: remember it, put its name in the dialog
      and open the dialog. */
  function EditFilter(st: ReportState, p: Preset): (r: ReportState)
    ensures r.editingFilter == Some(p) && r.newFilterName == p.name && r.isDialogOpen
    ensures r.criteria == st.criteria && r.customFilters == st.customFilters
  {
    st.(editingFilter := Some(p), newFilterName := p.name, isDialogOpen := true)
  }

  /** The "delete" button of a preset: every preset with that id goes, the
      rest keep their order. The preset under edit, if any, stays recorded. */
  function DeleteFilter(st: ReportState, id: string): (r: ReportState)
    ensures Seqs.IsSubsequence(r.customFilters, st.customFilters)
    ensures forall p :: p in r.customFilters <==> p in st.customFilters && p.id != id
    ensures IdFresh(r.customFilters, id)
    ensures r.(customFilters := st.customFilters) == st
  {
    var filters := Seqs.Filter(st.customFilters, (p: Preset) => p.id != id);
    assert forall i :: 0 <= i < |filters| ==> filters[i] in filters;
    st.(customFilters := filters)
  }

  /** The "clear filters" button: every criterion back to its wildcard. */
  function ClearFilters(st: ReportState): (r: ReportState)
    ensures AllWildcards(r)
    ensures r.(criteria := st.criteria) == st
  {
    st.(criteria := NoCriteria)
  }

  /** Every criterion of the state is a wildcard. */
  predicate AllWildcards(st: ReportState)
  {
    && st.criteria.productCode == "" && st.criteria.status == "" && st.criteria.store == ""
    && st.criteria.dateRange.from.None? && st.criteria.dateRange.to.None?
  }

  /** The "save filter" button of the toolbar: opens the dialog only. */
  function OpenDialog(st: ReportState): (r: ReportState)
    ensures r.isDialogOpen
    ensures r.(isDialogOpen := st.isDialogOpen) == st
  {
    st.(isDialogOpen := true)
  }

  /** The dialog's "cancel" button: closes the dialog only; the typed name
      and the preset under edit stay as they are. */
  function CancelDialog(st: ReportState): (r: ReportState)
    ensures !r.isDialogOpen
    ensures r.(isDialogOpen := st.isDialogOpen) == st
  {
    st.(isDialogOpen := false)
  }

  /** The report shown for the state: the orders filtered by the live criteria. */
  function Visible(orders: seq<Order>, st: ReportState): seq<Order>
  {
    FilterOrders(orders, st.criteria)
  }

  /** After "clear filters" the report shows every order, unchanged and in order. */
  lemma ClearShowsAllOrders(orders: seq<Order>, st: ReportState)
    ensures Visible(orders, ClearFilters(st)) == orders
  {
    NoCriteriaKeepsAll(orders);
  }

  /** Saving a new preset and later applying it restores exactly the criteria
      that were live when it was saved, whatever the state it is applied in. */
  lemma SaveThenApplyRestoresCriteria(st: ReportState, freshId: string, later: ReportState)
    requires st.editingFilter.None? && IdFresh(st.customFilters, freshId)
    ensures var saved := SaveFilter(st, freshId);
      var p := saved.customFilters[|saved.customFilters| - 1];
      p.id == freshId && ApplyFilter(later, p).criteria == st.criteria
  {
  }

  /** Saving under edit and later applying the edited preset restores the
      criteria that were live at the save. */
  lemma EditSaveThenApplyRestoresCriteria(st: ReportState, anyId: string, later: ReportState, i: nat)
    requires st.editingFilter.Some?
    requires i < |st.customFilters| && st.customFilters[i].id == st.editingFilter.value.id
    ensures var saved := SaveFilter(st, anyId);
      i < |saved.customFilters| && ApplyFilter(later, saved.customFilters[i]).criteria == st.criteria
  {
  }

  /** Deleting a freshly saved preset by its id gives back the earlier list. */
  lemma {:induction false} SaveThenDeleteRestoresList(st: ReportState, freshId: string)
    requires st.editingFilter.None? && IdFresh(st.customFilters, freshId)
    ensures DeleteFilter(SaveFilter(st, freshId), freshId).customFilters == st.customFilters
  {
    var keep := (p: Preset) => p.id != freshId;
    Seqs.FilterAppend(st.customFilters, [Preset(freshId, st.newFilterName, st.criteria)], keep);
    Seqs.FilterKeepsAll(st.customFilters, keep);
  }

  /** Each preset with another id is kept as many times as it is listed;
      none with that id is kept. */
  lemma DeleteFilterCounts(st: ReportState, id: string)
    ensures forall p :: multiset(DeleteFilter(st, id).customFilters)[p] ==
                          if p.id != id then multiset(st.customFilters)[p] else 0
  {
    Seqs.FilterCounts(st.customFilters, (p: Preset) => p.id != id);
  }

  /** Deleting the same id twice has the effect of deleting it once. */
  lemma DeleteFilterIdempotent(st: ReportState, id: string)
    ensures DeleteFilter(DeleteFilter(st, id), id) == DeleteFilter(st, id)
  {
    Seqs.FilterIdempotent(st.customFilters, (p: Preset) => p.id != id);
  }

  /** Deleting an id that is not in the list changes nothing. */
  lemma DeleteAbsentIsNoOp(st: ReportState, id: string)
    requires IdFresh(st.customFilters, id)
    ensures DeleteFilter(st, id) == st
  {
    Seqs.FilterKeepsAll(st.customFilters, (p: Preset) => p.id != id);
  }

  /** With unique ids, deleting a present id removes exactly one preset. */
  lemma DeletePresentRemovesOne(st: ReportState, i: nat)
    requires UniqueIds(st.customFilters) && i < |st.customFilters|
    ensures |DeleteFilter(st, st.customFilters[i].id).customFilters| == |st.customFilters| - 1
  {
    var ps, id := st.customFilters, st.customFilters[i].id;
    var keep := (p: Preset) => p.id != id;
    var left, right := ps[..i], ps[i + 1..];
    assert ps == left + [ps[i]] + right;
    assert forall j :: 0 <= j < |left| ==> keep(left[j]) by {
      assert forall j :: 0 <= j < |left| ==> left[j] == ps[j];
    }
    assert forall j :: 0 <= j < |right| ==> keep(right[j]) by {
      assert forall j :: 0 <= j < |right| ==> right[j] == ps[i + 1 + j];
    }
    Seqs.FilterKeepsAll(left, keep);
    Seqs.FilterKeepsAll(right, keep);
    Seqs.FilterAppend(left + [ps[i]], right, keep);
    Seqs.FilterAppend(left, [ps[i]], keep);
  }

  /** Deleting the preset under edit does not end the edit: a later save
      updates nothing (no preset has that id any more) and adds nothing,
      while it still clears the typed name and ends the edit. */
  lemma SaveAfterDeletingEditedPreset(st: ReportState, anyId: string)
    requires st.editingFilter.Some?
    ensures var deleted := DeleteFilter(st, st.editingFilter.value.id);
      var saved := SaveFilter(deleted, anyId);
      && deleted.editingFilter == st.editingFilter
      && saved.customFilters == deleted.customFilters
      && saved.newFilterName == "" && saved.editingFilter.None?
  {
    var deleted := DeleteFilter(st, st.editingFilter.value.id);
    var saved := SaveFilter(deleted, anyId);
    assert forall i :: 0 <= i < |deleted.customFilters| ==> saved.customFilters[i] == deleted.customFilters[i];
  }

  /** Cancelling the edit dialog leaves the edit session behind: the next
      save still targets the preset that was being edited. */
  lemma CancelKeepsEditSession(st: ReportState, p: Preset)
    ensures CancelDialog(EditFilter(st, p)).editingFilter == Some(p)
    ensures !CancelDialog(EditFilter(st, p)).isDialogOpen
  {
  }

  /** Opening the dialog and cancelling it returns to a state with the
      dialog closed and everything else as it was. */
  lemma OpenThenCancelRestores(st: ReportState)
    requires !st.isDialogOpen
    ensures CancelDialog(OpenDialog(st)) == st
  {
  }

  /** The state invariant: preset ids are unique. Every handler keeps it,
      given a fresh id for a new preset. */
  predicate Valid(st: ReportState)
  {
    UniqueIds(st.customFilters)
  }

  /** Deleting presets keeps the remaining ids unique. */
  lemma DeleteFilterPreservesValid(st: ReportState, id: string)
    requires Valid(st)
    ensures Valid(DeleteFilter(st, id))
  {
    Seqs.FilterKeepsDistinct(st.customFilters, (p: Preset) => p.id != id, (p: Preset) => p.id);
  }

  /** The view starts in a valid state, with every order shown. */
  lemma InitialIsValid(orders: seq<Order>)
    ensures Valid(Initial) && AllWildcards(Initial)
    ensures Visible(orders, Initial) == orders
  {
    NoCriteriaKeepsAll(orders);
  }

  lemma HandlersPreserveValid(st: ReportState, freshId: string, p: Preset, id: string)
    requires Valid(st)
    requires st.editingFilter.None? ==> IdFresh(st.customFilters, freshId)
    ensures Valid(SaveFilter(st, freshId))
    ensures Valid(ApplyFilter(st, p)) && Valid(EditFilter(st, p))
    ensures Valid(DeleteFilter(st, id)) && Valid(ClearFilters(st))
    ensures Valid(OpenDialog(st)) && Valid(CancelDialog(st))
  {
    DeleteFilterPreservesValid(st, id);
  }
}
