/**
 * The viewer's session state: the fragment groups the fragments manager has
 * registered (each with the set of its items that are hidden), the
 * highlighter's current selection, and the model that was loaded last. The
 * toolbar's "Visibility", "Dispose" and "Export" buttons and the manager's
 * "fragments loaded" event act on it.
 */
module Session {

  datatype Option<T> = None | Some(value: T)

  /** Fragment groups are keyed by a string id; items inside them by a numeric id. */
  type FragmentId = string
  type ItemId = int

  type byte = bv8

  /** A model as the "fragments loaded" event delivers it. */
  datatype Model = Model(uuid: string, hasProperties: bool)

  /** A registered fragment group: which of its items are hidden, and whether it was disposed. */
  datatype Group = Group(hiddenItems: set<ItemId>, disposed: bool)

  /** The highlighter's selection: for each fragment id, the selected item ids. */
  type Selection = map<FragmentId, set<ItemId>>

  /** The fragments manager's groups, by fragment id. */
  type Registry = map<FragmentId, Group>

  /** `fragment.setVisibility(visible, [id])` on a group whose hidden items are `hidden`. */
  function SetVisibility(hidden: set<ItemId>, visible: bool, id: ItemId): (r: set<ItemId>)
    ensures id in r <==> !visible
    ensures forall j :: j != id ==> (j in r <==> j in hidden)
  {
    if visible then hidden - {id} else hidden + {id}
  }

  /** One pass of the inner loop of toggleVisibility: read the item's visibility, then set the opposite. */
  function ToggleItem(hidden: set<ItemId>, id: ItemId): set<ItemId> {
    var isVisible := id !in hidden;
    SetVisibility(hidden, !isVisible, id)
  }

  /** The inner loop of toggleVisibility run over the items in the order `order`, one at a time. */
  function ToggleInOrder(hidden: set<ItemId>, order: seq<ItemId>): set<ItemId>
    decreases |order|
  {
    if order == [] then hidden else ToggleInOrder(ToggleItem(hidden, order[0]), order[1..])
  }

  /** Toggling one more item at the end of the order is one more pass of the inner loop. */
  lemma {:induction false} ToggleInOrderSnoc(hidden: set<ItemId>, order: seq<ItemId>, id: ItemId)
    ensures ToggleInOrder(hidden, order + [id]) == ToggleItem(ToggleInOrder(hidden, order), id)
    decreases |order|
  {
    if order == [] {
      assert [] + [id] == [id];
      assert [id][1..] == [];
    } else {
      assert (order + [id])[0] == order[0];
      assert (order + [id])[1..] == order[1..] + [id];
      ToggleInOrderSnoc(ToggleItem(hidden, order[0]), order[1..], id);
    }
  }

  /** Every item of `ids` flipped from its own state, every other item kept. */
  function Flipped(hidden: set<ItemId>, ids: set<ItemId>): (r: set<ItemId>)
    ensures forall i :: i in ids ==> (i in r <==> i !in hidden)
    ensures forall i :: i !in ids ==> (i in r <==> i in hidden)
  {
    (hidden - ids) + (ids - hidden)
  }

  /** No item occurs twice in `order`. */
  predicate Distinct(order: seq<ItemId>) {
    forall j, k :: 0 <= j < k < |order| ==> order[j] != order[k]
  }

  /**
   * Whatever order the selected ids come in, flipping them one at a time
   * hides exactly the selected items that were visible and shows exactly
   * the selected items that were hidden.
   */
  lemma {:induction false} ToggleInOrderFlips(hidden: set<ItemId>, order: seq<ItemId>)
    requires Distinct(order)
    ensures ToggleInOrder(hidden, order) == Flipped(hidden, set i | i in order)
    decreases |order|
  {
    if order != [] {
      var rest := order[1..];
      var next := ToggleItem(hidden, order[0]);
      assert Distinct(rest);
      ToggleInOrderFlips(next, rest);
      assert order[0] !in rest by {
        forall k | 0 <= k < |rest| ensures rest[k] != order[0] {
          assert rest[k] == order[k + 1];
        }
      }
      assert (set i | i in order) == {order[0]} + (set i | i in rest);
      assert Flipped(next, set i | i in rest) == Flipped(hidden, set i | i in order);
    }
  }

  /**
   * The registry after toggleVisibility with selection `selection`: in every
   * registered group that the selection names, each selected item is flipped
   * on its own; groups the selection does not name, and selected fragment ids
   * that are not registered, change nothing.
   */
  function Toggled(groups: Registry, selection: Selection): (r: Registry)
    ensures r.Keys == groups.Keys
    ensures forall f :: f in r ==> r[f].disposed == groups[f].disposed
    ensures forall f :: f in r && f !in selection ==> r[f] == groups[f]
    ensures forall f, i :: f in r && f in selection && i in selection[f] ==>
              (i in r[f].hiddenItems <==> i !in groups[f].hiddenItems)
    ensures forall f, i :: f in r && f in selection && i !in selection[f] ==>
              (i in r[f].hiddenItems <==> i in groups[f].hiddenItems)
  {
    map f | f in groups ::
      if f in selection then groups[f].(hiddenItems := Flipped(groups[f].hiddenItems, selection[f]))
      else groups[f]
  }

  /** Toggling one more fragment's items changes only that fragment's group, if it is registered. */
  lemma ToggledExtend(groups: Registry, selection: Selection, f: FragmentId, ids: set<ItemId>)
    requires f !in selection
    ensures f in groups ==>
              Toggled(groups, selection[f := ids])
              == Toggled(groups, selection)[f := groups[f].(hiddenItems := Flipped(groups[f].hiddenItems, ids))]
    ensures f !in groups ==> Toggled(groups, selection[f := ids]) == Toggled(groups, selection)
  {
  }

  /** With nothing selected, toggling changes no group. */
  lemma ToggleEmptySelection(groups: Registry)
    ensures Toggled(groups, map[]) == groups
  {
  }

  /** A selected fragment id with no registered group is skipped; the rest of the batch is applied as before. */
  lemma ToggleSkipsUnregistered(groups: Registry, selection: Selection, f: FragmentId, ids: set<ItemId>)
    requires f !in groups
    ensures Toggled(groups, selection[f := ids]) == Toggled(groups, selection)
  {
  }

  /** Toggling the same selection twice restores every group. */
  lemma ToggleTwiceRestores(groups: Registry, selection: Selection)
    ensures Toggled(Toggled(groups, selection), selection) == groups
  {
    var once := Toggled(groups, selection);
    var twice := Toggled(once, selection);
    forall f | f in groups ensures twice[f] == groups[f] {
      if f in selection {
        assert twice[f].hiddenItems == groups[f].hiddenItems;
      }
    }
  }

  /**
   * A group whose selected items are partly hidden and partly visible stays
   * mixed: the hidden one becomes visible and the visible one hidden.
   */
  lemma MixedGroupStaysMixed(groups: Registry, selection: Selection, f: FragmentId, shown: ItemId, hidden: ItemId)
    requires f in groups && f in selection
    requires shown in selection[f] && hidden in selection[f]
    requires shown !in groups[f].hiddenItems && hidden in groups[f].hiddenItems
    ensures shown in Toggled(groups, selection)[f].hiddenItems
    ensures hidden !in Toggled(groups, selection)[f].hiddenItems
  {
  }

  /** An element of a set that is not empty: what a loop over the set visits next. */
  lemma Member<T>(s: set<T>) returns (x: T)
    requires s != {}
    ensures x in s
  {
    if forall y :: y !in s {
      assert false;
    }
    x :| x in s;
  }

  /** Every registered group marked disposed, with its hidden items untouched. */
  function Disposed(groups: Registry): (r: Registry)
    ensures r.Keys == groups.Keys
    ensures forall f :: f in r ==> r[f].disposed && r[f].hiddenItems == groups[f].hiddenItems
  {
    map f | f in groups :: groups[f].(disposed := true)
  }

  /** The session state behind the viewer's toolbar. */
  class Viewer {
    /** The fragments manager's registered groups. */
    var groups: Registry
    /** The highlighter's current selection. */
    var selection: Selection
    /** The model that was loaded last, if it has not been disposed. */
    var fragmentModel: Option<Model>
    /** The models handed to model processing (relation indexing and classification), in order. */
    var processed: seq<Model>

    /** A viewer with no group, no selection and no model. */
    constructor()
      ensures groups == map[] && selection == map[]
      ensures fragmentModel == None && processed == []
    {
      groups := map[];
      selection := map[];
      fragmentModel := None;
      processed := [];
    }

    /** The fragments manager registers group `f`, none of whose items is hidden. */
    method Register(f: FragmentId)
      modifies this
      ensures groups == old(groups)[f := Group({}, false)]
      ensures selection == old(selection) && fragmentModel == old(fragmentModel) && processed == old(processed)
    {
      groups := groups[f := Group({}, false)];
    }

    /**
     * The highlighter's selection becomes `picked`. The same highlight event
     * drives the layout's `Layout.Highlight` transition.
     */
    method Select(picked: Selection)
      modifies this
      ensures selection == picked
      ensures groups == old(groups) && fragmentModel == old(fragmentModel) && processed == old(processed)
    {
      selection := picked;
    }

    /**
     * The highlighter's selection is cleared. The same clear event drives the
     * layout's `Layout.Clear` transition.
     */
    method ClearSelection()
      modifies this
      ensures selection == map[]
      ensures groups == old(groups) && fragmentModel == old(fragmentModel) && processed == old(processed)
    {
      selection := map[];
    }

    /**
     * toggleVisibility: for each selected fragment id, look up its group; for
     * each selected item of a registered group, read whether it is visible and
     * set the opposite. Returns at once when nothing is selected.
     */
    method ToggleVisibility()
      modifies this
      ensures groups == Toggled(old(groups), old(selection))
      ensures selection == old(selection) && fragmentModel == old(fragmentModel) && processed == old(processed)
    {
      if |selection| == 0 {
        assert selection == map[];
        ToggleEmptySelection(groups);
        return;
      }
      ghost var start := groups;
      var pending := selection.Keys;
      while pending != {}
        invariant pending <= selection.Keys
        invariant selection == old(selection) && fragmentModel == old(fragmentModel) && processed == old(processed)
        invariant groups == Toggled(start, selection - pending)
        decreases pending
      {
        ghost var next := Member(pending);
        var f :| f in pending;
        ToggledExtend(start, selection - pending, f, selection[f]);
        ToggleFragment(f, selection[f]);
        assert (selection - pending)[f := selection[f]] == selection - (pending - {f});
        pending := pending - {f};
      }
      assert selection - pending == selection;
    }

    /**
     * One pass of toggleVisibility's outer loop: look up the group of fragment
     * `f` and flip each of the items `ids` in it, one at a time; an id whose
     * fragment has no group is skipped.
     */
    method ToggleFragment(f: FragmentId, ids: set<ItemId>)
      modifies this
      ensures f in old(groups) ==>
                groups == old(groups)[f := old(groups)[f].(hiddenItems := Flipped(old(groups)[f].hiddenItems, ids))]
      ensures f !in old(groups) ==> groups == old(groups)
      ensures selection == old(selection) && fragmentModel == old(fragmentModel) && processed == old(processed)
    {
      var fragment := if f in groups then Some(groups[f]) else None;
      var todo := ids;
      ghost var hidden0 := if f in groups then groups[f].hiddenItems else {};
      // the ids visited so far, in the order the loop visited them
      ghost var order: seq<ItemId> := [];
      assert fragment.Some? ==> groups == old(groups)[f := old(groups)[f].(hiddenItems := ToggleInOrder(hidden0, order))];
      while todo != {}
        invariant todo <= ids
        invariant Distinct(order)
        invariant forall i :: i in order <==> i in ids && i !in todo
        invariant selection == old(selection) && fragmentModel == old(fragmentModel) && processed == old(processed)
        invariant fragment.None? ==> groups == old(groups)
        invariant fragment.Some? ==> f in old(groups) && hidden0 == old(groups)[f].hiddenItems
        invariant fragment.Some? ==>
                    groups == old(groups)[f := old(groups)[f].(hiddenItems := ToggleInOrder(hidden0, order))]
        decreases todo
      {
        ghost var next := Member(todo);
        var id :| id in todo;
        todo := todo - {id};
        ToggleInOrderSnoc(hidden0, order, id);
        order := order + [id];
        if fragment.None? {
          continue;
        }
        var isVisible := id !in groups[f].hiddenItems;
        groups := groups[f := groups[f].(hiddenItems := SetVisibility(groups[f].hiddenItems, !isVisible, id))];
      }
      ToggleInOrderFlips(hidden0, order);
      assert forall i :: i in (set j | j in order) <==> i in ids;
      assert (set j | j in order) == ids;
    }

    /** disposeFragments: dispose every registered group, then forget the current model. */
    method DisposeFragments()
      modifies this
      ensures groups == Disposed(old(groups))
      ensures fragmentModel == None
      ensures selection == old(selection) && processed == old(processed)
    {
      ghost var start := groups;
      var pending := groups.Keys;
      while pending != {}
        invariant pending <= groups.Keys && groups.Keys == start.Keys
        invariant forall f :: f in groups ==> groups[f] == if f in pending then start[f] else start[f].(disposed := true)
        invariant selection == old(selection) && processed == old(processed)
        decreases pending
      {
        ghost var next := Member(pending);
        var f :| f in pending;
        groups := groups[f := groups[f].(disposed := true)];
        pending := pending - {f};
      }
      fragmentModel := None;
    }

    /**
     * The "fragments loaded" handler: a model that carries properties is
     * handed to model processing, and the handler waits for it. The model
     * becomes the current one only if it carries no properties or processing
     * completes. If processing rejects, the handler stops there and the
     * previous current model stays. `processingSucceeds` is the library's
     * outcome; it is not looked at for a model without properties.
     */
    method OnFragmentsLoaded(model: Model, processingSucceeds: bool)
      modifies this
      ensures processed == old(processed) + (if model.hasProperties then [model] else [])
      ensures fragmentModel == if !model.hasProperties || processingSucceeds then Some(model) else old(fragmentModel)
      ensures groups == old(groups) && selection == old(selection)
    {
      if model.hasProperties {
        processed := processed + [model];
        if !processingSucceeds {
          return;
        }
      }
      fragmentModel := Some(model);
    }

    /**
     * exportFragments: with no current model nothing is produced; otherwise
     * the current model's fragment binary, as the codec `encode` writes it.
     */
    method ExportFragments(encode: Model -> seq<byte>) returns (binary: Option<seq<byte>>)
      ensures binary.None? <==> fragmentModel.None?
      ensures fragmentModel.Some? ==> binary == Some(encode(fragmentModel.value))
    {
      if fragmentModel.None? {
        return None;
      }
      binary := Some(encode(fragmentModel.value));
    }
  }

  /**
   * The mixed case worked through on a viewer: item 2 of a group is hidden
   * by a first toggle; then items 1 (visible) and 2 (hidden) are selected,
   * together with an id of a fragment that is not registered; after one toggle 1 is hidden and 2
   * visible, after a second toggle the group is as it was.
   */
  method MixedToggleScenario() returns (afterOnce: set<ItemId>, afterTwice: set<ItemId>)
    ensures afterOnce == {1}
    ensures afterTwice == {2}
  {
    var viewer := new Viewer();
    viewer.Register("walls");
    viewer.Select(map["walls" := {2}]);
    viewer.ToggleVisibility();
    viewer.Select(map["walls" := {1, 2}, "unloaded" := {7}]);
    viewer.ToggleVisibility();
    afterOnce := viewer.groups["walls"].hiddenItems;
    viewer.ToggleVisibility();
    afterTwice := viewer.groups["walls"].hiddenItems;
  }

  /**
   * Loading, then disposing. A load whose processing completes (or that
   * needs none) makes the model current, so export produces its binary; a
   * load whose processing rejects leaves the previous current model, and
   * export produces that one's binary, if any. The dispose forgets the
   * current model, so a following export produces nothing.
   */
  method ExportAfterDispose(viewer: Viewer, model: Model, processingSucceeds: bool, encode: Model -> seq<byte>)
    returns (beforeDispose: Option<seq<byte>>, afterDispose: Option<seq<byte>>)
    modifies viewer
    ensures !model.hasProperties || processingSucceeds ==> beforeDispose == Some(encode(model))
    ensures model.hasProperties && !processingSucceeds ==>
              beforeDispose == if old(viewer.fragmentModel).Some? then Some(encode(old(viewer.fragmentModel).value)) else None
    ensures afterDispose == None
  {
    viewer.OnFragmentsLoaded(model, processingSucceeds);
    beforeDispose := viewer.ExportFragments(encode);
    viewer.DisposeFragments();
    afterDispose := viewer.ExportFragments(encode);
  }
}
