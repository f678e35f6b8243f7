/**
 * Panes (`panes.rs`): a map of panes keyed by incremental ids, one of them
 * focused; splitting the focused pane halves its area, keeps one column or
 * row for the border, and focuses the new pane.
 */
module Panes {
  import opened Base
  import opened Ids
  import opened Rects

  datatype Layout = Vertical | Horizontal

  /** A pane's geometry and links; its scroll view is not part of this model. */
  datatype Pane = Pane(id: Id, area: Rect, docId: Id, layout: Layout, parentId: Option<Id>)

  /** `Pane::new`: the default id, the default document, a vertical layout and no parent. */
  function NewPane(area: Rect): (p: Pane)
    ensures p.id == Default() && p.docId == Default() && p.area == area
    ensures p.layout == Vertical && p.parentId.None?
  {
    Pane(Default(), area, Default(), Vertical, None)
  }

  /** The sums `Pane::split` computes on a side of length `n` stay within `u16`. */
  predicate Splittable(p: Pane)
  {
    p.area.width + 2 <= U16_MAX && p.area.height + 2 <= U16_MAX
  }

  /**
   * `Pane::split`: the pane `p` becomes `kept`, and `created` is the new pane
   * with id `id`. The new pane takes the far half (`clip_left`/`clip_top` by
   * ceil(n/2)), the old one keeps the near part (`clip_right`/`clip_bottom`
   * by floor(n/2)+1), so one column or row between them is left for the border.
   */
  function SplitPane(p: Pane, layout: Layout, id: Id): (r: (Pane, Pane))
    requires Splittable(p)
    ensures var (kept, created) := r;
      && kept.id == p.id && kept.docId == p.docId && kept.parentId == p.parentId
      && kept.layout == layout && created.layout == layout
      && created.id == id && created.docId == p.docId && created.parentId == Some(p.id)
      && kept.area.position == p.area.position
  {
    var a := p.area;
    var (keptArea, createdArea) :=
      match layout
      case Vertical => (ClipRight(a, (a.width + 2) / 2), ClipLeft(a, (a.width + 1) / 2))
      case Horizontal => (ClipBottom(a, (a.height + 2) / 2), ClipTop(a, (a.height + 1) / 2));
    (p.(area := keptArea, layout := layout),
     Pane(id, createdArea, p.docId, layout, Some(p.id)))
  }

  /**
   * A vertical split of a width `w >= 1` leaves ceil(w/2) - 1 columns to the
   * old pane and floor(w/2) to the new one: together `w - 1`, the remaining
   * column being the border. The new pane starts right after that border and
   * ends at the old right edge; the height is shared.
   */
  lemma {:induction false} VerticalSplitWidths(p: Pane, id: Id)
    requires Splittable(p) && Fits(p.area) && p.area.width >= 1
    ensures var (kept, created) := SplitPane(p, Vertical, id);
      && kept.area.width == (p.area.width + 1) / 2 - 1
      && created.area.width == p.area.width / 2
      && kept.area.width + 1 + created.area.width == p.area.width
      && Left(created.area) == Left(kept.area) + kept.area.width + 1
      && Fits(created.area) && Right(created.area) == Right(p.area)
      && kept.area.height == created.area.height == p.area.height
      && Top(created.area) == Top(p.area)
  {
  }

  /** The horizontal split does the same with heights and rows. */
  lemma {:induction false} HorizontalSplitHeights(p: Pane, id: Id)
    requires Splittable(p) && Fits(p.area) && p.area.height >= 1
    ensures var (kept, created) := SplitPane(p, Horizontal, id);
      && kept.area.height == (p.area.height + 1) / 2 - 1
      && created.area.height == p.area.height / 2
      && kept.area.height + 1 + created.area.height == p.area.height
      && Top(created.area) == Top(kept.area) + kept.area.height + 1
      && Fits(created.area) && Bottom(created.area) == Bottom(p.area)
      && kept.area.width == created.area.width == p.area.width
      && Left(created.area) == Left(p.area)
  {
  }

  /** Splitting an empty side leaves both panes empty along it. */
  lemma {:induction false} EmptySplit(p: Pane, id: Id)
    requires Splittable(p) && p.area.width == 0
    ensures SplitPane(p, Vertical, id).0.area.width == 0 && SplitPane(p, Vertical, id).1.area.width == 0
  {
  }

  class PaneSet {
    var area: Rect
    var focused: Id
    var nextPaneId: Id
    var panes: map<Id, Pane>

    /** The focused pane exists and every pane's id is its key and lies below the next id. */
    ghost predicate Valid()
      reads this
    {
      && IsId(nextPaneId)
      && focused in panes
      && (forall i :: i in panes ==> panes[i].id == i && IsId(i) && i.value < nextPaneId.value)
    }

    /** `Panes::new`: one pane under the default id, focused, and the next id after it. */
    constructor (area: Rect)
      ensures Valid()
      ensures this.area == area && panes == map[Default() := NewPane(area)]
      ensures focused == Default() && nextPaneId == Next(Default())
    {
      this.area := area;
      panes := map[Default() := NewPane(area)];
      focused := Default();
      nextPaneId := Next(Default());
    }

    /**
     * `Panes::split`: the focused pane is split, the new pane is inserted
     * under the next id (which no pane holds yet) and focused, and the next
     * id advances.
     */
    method Split(layout: Layout)
      requires Valid() && Splittable(panes[focused])
      modifies this
      ensures Valid()
      ensures old(nextPaneId) !in old(panes)
      ensures var (kept, created) := SplitPane(old(panes[focused]), layout, old(nextPaneId));
        panes == old(panes)[old(focused) := kept][old(nextPaneId) := created]
      ensures focused == old(nextPaneId) && nextPaneId == Next(old(nextPaneId))
      ensures |panes.Keys| == |old(panes.Keys)| + 1
      ensures area == old(area)
    {
      var id := nextPaneId;
      var (kept, created) := SplitPane(panes[focused], layout, id);
      panes := panes[focused := kept][id := created];
      assert old(panes).Keys + {id} == panes.Keys;
      focused := id;
      nextPaneId := Next(nextPaneId);
    }
  }
}
