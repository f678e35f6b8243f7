/**
 * Modal dialogs (`ui/modal.rs`): a title, a body and a row of buttons, one
 * of them chosen. Arrow keys cycle the choice, Enter confirms it and a
 * button's hotkey picks and confirms that button.
 */
module Modals {
  import opened Base
  import opened Keys

  /** The button sets a modal can offer; each is its own enum in the source. */
  datatype Choice =
    | YesNoCancel(ync: YncButton)
    | Okay
    | FileReload(fr: ReloadButton)
    | FileOverwrite(fo: OverwriteButton)

  datatype YncButton = Yes | No | Cancel
  datatype ReloadButton = ReloadOk | Reload
  datatype OverwriteButton = Overwrite | OverwriteReload | OverwriteCancel

  /** Two choices are buttons of the same set. */
  predicate SameSet(a: Choice, b: Choice)
  {
    (a.YesNoCancel? && b.YesNoCancel?) || (a.Okay? && b.Okay?)
    || (a.FileReload? && b.FileReload?) || (a.FileOverwrite? && b.FileOverwrite?)
  }

  /** `buttons().len()`. */
  function Count(c: Choice): (n: nat)
    ensures 1 <= n <= 3
  {
    match c
    case YesNoCancel(_) => 3
    case Okay => 1
    case FileReload(_) => 2
    case FileOverwrite(_) => 3
  }

  /** `to_index`: the button's position in its row. */
  function ToIndex(c: Choice): (i: nat)
    ensures i < Count(c)
  {
    match c
    case YesNoCancel(b) => (match b case Yes => 0 case No => 1 case Cancel => 2)
    case Okay => 0
    case FileReload(b) => (match b case ReloadOk => 0 case Reload => 1)
    case FileOverwrite(b) => (match b case Overwrite => 0 case OverwriteReload => 1 case OverwriteCancel => 2)
  }

  /** `from_index` of the set `like` belongs to: an index past the last button gives the last button. */
  function FromIndex(like: Choice, i: nat): (c: Choice)
    ensures SameSet(c, like)
    ensures ToIndex(c) == Min(i, Count(like) - 1)
  {
    match like
    case YesNoCancel(_) => YesNoCancel(if i == 0 then Yes else if i == 1 then No else Cancel)
    case Okay => Okay
    case FileReload(_) => FileReload(if i == 0 then ReloadOk else Reload)
    case FileOverwrite(_) => FileOverwrite(if i == 0 then Overwrite else if i == 1 then OverwriteReload else OverwriteCancel)
  }

  /** Every button is recovered from its index. */
  lemma {:induction false} FromToIndex(c: Choice)
    ensures FromIndex(c, ToIndex(c)) == c
  {
  }

  /** `from_key_code`: the button a hotkey stands for, in the set `like` belongs to. */
  function FromKey(like: Choice, code: KeyCode): (r: Option<Choice>)
    ensures r.Some? ==> SameSet(r.value, like)
    ensures r.Some? ==> code == Esc || code.Char?
  {
    match like
    case YesNoCancel(_) =>
      if code == Char('y') then Some(YesNoCancel(Yes))
      else if code == Char('n') then Some(YesNoCancel(No))
      else if code == Esc || code == Char('c') || code == Char('q') then Some(YesNoCancel(Cancel))
      else None
    case Okay =>
      if code == Esc || code == Char('o') || code == Char('q') then Some(Okay) else None
    case FileReload(_) =>
      if code == Esc || code == Char('o') || code == Char('q') then Some(FileReload(ReloadOk))
      else if code == Char('r') then Some(FileReload(Reload))
      else None
    case FileOverwrite(_) =>
      if code == Char('o') then Some(FileOverwrite(Overwrite))
      else if code == Char('r') then Some(FileOverwrite(OverwriteReload))
      else if code == Esc || code == Char('c') || code == Char('q') then Some(FileOverwrite(OverwriteCancel))
      else None
  }

  /** Escape picks a button in every set: the dialogs can always be dismissed. */
  lemma {:induction false} EscapeAlwaysChooses(c: Choice)
    ensures FromKey(c, Esc).Some?
  {
  }

  /** The width of a modal box: body or title plus padding, between 21 and 60, and at most 80% of the area. */
  function BoxWidth(bodyWidth: nat, titleWidth: nat, areaWidth: U16): (w: nat)
    ensures w <= 60 && w <= areaWidth * 8 / 10
    ensures areaWidth * 8 / 10 >= 21 ==> w >= 21
    ensures 21 <= Max(bodyWidth, titleWidth) + 4 <= Min(60, areaWidth * 8 / 10) ==> w == Max(bodyWidth, titleWidth) + 4
  {
    var wanted := Max(bodyWidth + 4, titleWidth + 4);
    var clamped := if wanted < 21 then 21 else if wanted > 60 then 60 else wanted;
    Min(clamped, areaWidth * 8 / 10)
  }

  class Modal {
    var title: string
    var body: string
    var choice: Choice

    /** `Modal::new`: the first button of its set is chosen. */
    constructor (title: string, body: string, buttons: Choice)
      ensures this.title == title && this.body == body
      ensures SameSet(choice, buttons) && ToIndex(choice) == 0
    {
      this.title := title;
      this.body := body;
      choice := FromIndex(buttons, 0);
    }

    /**
     * `handle_choice`: right (or `l`) moves to the next button and left (or
     * `h`) to the previous one, both wrapping around, and return false;
     * Enter returns true; a hotkey chooses its button and returns true;
     * any other key changes nothing and returns false.
     */
    method HandleChoice(event: KeyEvent) returns (confirmed: bool)
      modifies this
      ensures title == old(title) && body == old(body) && SameSet(choice, old(choice))
      ensures event.code == Right || event.code == Char('l') ==>
        !confirmed && ToIndex(choice) == (ToIndex(old(choice)) + 1) % Count(choice)
      ensures event.code == Left || event.code == Char('h') ==>
        !confirmed && ToIndex(choice) == (ToIndex(old(choice)) + Count(choice) - 1) % Count(choice)
      ensures event.code == Enter ==> confirmed && choice == old(choice)
      ensures event.code !in {Right, Char('l'), Left, Char('h'), Enter} ==>
        && (FromKey(old(choice), event.code).Some? ==> confirmed && choice == FromKey(old(choice), event.code).value)
        && (FromKey(old(choice), event.code).None? ==> !confirmed && choice == old(choice))
    {
      var code := event.code;
      if code == Char('l') || code == Right {
        var index := ToIndex(choice);
        var len := Count(choice);
        choice := FromIndex(choice, (index + 1) % len);
        confirmed := false;
      } else if code == Char('h') || code == Left {
        var index := ToIndex(choice);
        var len := Count(choice);
        choice := FromIndex(choice, (index + SatSub(len, 1)) % len);
        confirmed := false;
      } else if code == Enter {
        confirmed := true;
      } else {
        var picked := FromKey(choice, code);
        if picked.Some? {
          choice := picked.value;
          confirmed := true;
        } else {
          confirmed := false;
        }
      }
    }
  }

  /** Moving right then left returns to the same button. */
  lemma {:induction false} RightThenLeft(c: Choice)
    ensures var r := FromIndex(c, (ToIndex(c) + 1) % Count(c));
      FromIndex(r, (ToIndex(r) + Count(r) - 1) % Count(r)) == c
  {
  }

  /** `k` presses of the right arrow advance the index by `k`, wrapping around. */
  lemma {:induction false} RightCycles(c: Choice, k: nat)
    ensures ToIndex(RightTimes(c, k)) == (ToIndex(c) + k) % Count(c)
    ensures SameSet(RightTimes(c, k), c)
    decreases k
  {
    if k > 0 {
      RightCycles(c, k - 1);
      var p := RightTimes(c, k - 1);
      assert RightTimes(c, k) == FromIndex(c, (ToIndex(p) + 1) % Count(c));
      ModStep(ToIndex(c) + k - 1, Count(c));
    }
  }

  lemma {:induction false} ModStep(a: nat, n: nat)
    requires 1 <= n <= 3
    ensures (a % n + 1) % n == (a + 1) % n
  {
    var q, r := a / n, a % n;
    assert a == q * n + r && r < n;
    if r + 1 < n {
      WithQuotient(q, n, r + 1);
    } else {
      assert a + 1 == (q + 1) * n;
      WithQuotient(q + 1, n, 0);
    }
  }

  lemma {:induction false} WithQuotient(q: nat, n: nat, r: nat)
    requires r < n <= 3
    ensures (q * n + r) % n == r
  {
    if n == 1 {
      assert q * n + r == q;
    } else if n == 2 {
      assert q * n + r == 2 * q + r;
    } else {
      assert q * n + r == 3 * q + r;
    }
  }

  lemma {:induction false} WrapOnce(i: nat, n: nat)
    requires i < n
    ensures (i + n) % n == i
  {
  }

  /** A button is determined by its set and its index. */
  lemma {:induction false} IndexDetermines(a: Choice, b: Choice)
    requires SameSet(a, b) && ToIndex(a) == ToIndex(b)
    ensures a == b
  {
  }

  /** Pressing right once per button comes back to the starting button. */
  lemma {:induction false} RightFullCycle(c: Choice)
    ensures RightTimes(c, Count(c)) == c
  {
    var n, i := Count(c), ToIndex(c);
    var r := RightTimes(c, n);
    RightCycles(c, n);
    WrapOnce(i, n);
    IndexDetermines(r, c);
  }

  /** The button reached after `k` presses of the right arrow. */
  function RightTimes(c: Choice, k: nat): (r: Choice)
    decreases k
  {
    if k == 0 then c
    else
      var p := RightTimes(c, k - 1);
      FromIndex(c, (ToIndex(p) + 1) % Count(c))
  }
}
