/** The interface store: which panels are open, and the list of toasts
    shown at the corner of the screen. */
module UiStore {
  import opened Wrappers

  datatype ToastType = Success | Error | Info

  datatype Toast = Toast(id: string, message: string, kind: ToastType)

  /** `toasts.filter((t) => t.id !== id)`. */
  function Without(toasts: seq<Toast>, id: string): (r: seq<Toast>)
    ensures |r| <= |toasts|
    ensures forall i :: 0 <= i < |r| ==> r[i].id != id
  {
    if toasts == [] then []
    else
      var init, last := toasts[..|toasts| - 1], toasts[|toasts| - 1];
      Without(init, id) + (if last.id != id then [last] else [])
  }

  /** The toasts that stay are exactly those with another id. */
  lemma {:induction false} WithoutMembers(toasts: seq<Toast>, id: string)
    ensures forall t :: t in Without(toasts, id) <==> t in toasts && t.id != id
  {
    if toasts != [] {
      var init := toasts[..|toasts| - 1];
      WithoutMembers(init, id);
      assert toasts == init + [toasts[|toasts| - 1]];
    }
  }

  /** Filtering keeps the order: filtering a concatenation filters each
      part. */
  lemma {:induction false} WithoutAppend(a: seq<Toast>, b: seq<Toast>, id: string)
    ensures Without(a + b, id) == Without(a, id) + Without(b, id)
    decreases |b|
  {
    if b == [] {
      assert a + b == a;
    } else {
      var b', last := b[..|b| - 1], b[|b| - 1];
      assert (a + b)[..|a + b| - 1] == a + b';
      assert (a + b)[|a + b| - 1] == last;
      WithoutAppend(a, b', id);
    }
  }

  /** A list without the id is left as it is: dismissing twice is
      dismissing once. */
  lemma {:induction false} WithoutAbsent(toasts: seq<Toast>, id: string)
    requires forall i :: 0 <= i < |toasts| ==> toasts[i].id != id
    ensures Without(toasts, id) == toasts
  {
    if toasts != [] {
      WithoutAbsent(toasts[..|toasts| - 1], id);
    }
  }

  /** Dismissing a toast that was shown under a fresh id gives back the
      list as it was before it was shown, whatever was shown in between. */
  lemma ShowThenDismiss(before: seq<Toast>, t: Toast, after: seq<Toast>)
    requires forall i :: 0 <= i < |before| ==> before[i].id != t.id
    requires forall i :: 0 <= i < |after| ==> after[i].id != t.id
    ensures Without(before + [t] + after, t.id) == before + after
  {
    calc {
      Without(before + [t] + after, t.id);
      { WithoutAppend(before + [t], after, t.id); }
      Without(before + [t], t.id) + Without(after, t.id);
      { WithoutAbsent(after, t.id); }
      Without(before + [t], t.id) + after;
      { WithoutLast(before, t); }
      Without(before, t.id) + after;
      { WithoutAbsent(before, t.id); }
      before + after;
    }
  }

  /** A toast at the end is dropped when its own id is filtered out. */
  lemma WithoutLast(toasts: seq<Toast>, t: Toast)
    ensures Without(toasts + [t], t.id) == Without(toasts, t.id)
  {
    var s := toasts + [t];
    assert s[..|s| - 1] == toasts;
    assert s[|s| - 1] == t;
  }

  class UiState {
    var isSidebarOpen: bool
    var isSettingsOpen: bool
    var isRightPanelOpen: bool
    var toasts: seq<Toast>

    /** The sidebar open, settings and the right panel closed, no
        toasts. */
    constructor()
      ensures isSidebarOpen && !isSettingsOpen && !isRightPanelOpen && toasts == []
    {
      isSidebarOpen := true;
      isSettingsOpen := false;
      isRightPanelOpen := false;
      toasts := [];
    }

    /** Flips the sidebar, and nothing else; two flips restore it. */
    method ToggleSidebar()
      modifies this
      ensures isSidebarOpen == !old(isSidebarOpen)
      ensures isSettingsOpen == old(isSettingsOpen) && isRightPanelOpen == old(isRightPanelOpen)
      ensures toasts == old(toasts)
    {
      isSidebarOpen := !isSidebarOpen;
    }

    /** Opens the settings dialog; opening it again changes nothing. */
    method OpenSettings()
      modifies this
      ensures isSettingsOpen
      ensures isSidebarOpen == old(isSidebarOpen) && isRightPanelOpen == old(isRightPanelOpen)
      ensures toasts == old(toasts)
    {
      isSettingsOpen := true;
    }

    /** Closes the settings dialog; closing it again changes nothing. */
    method CloseSettings()
      modifies this
      ensures !isSettingsOpen
      ensures isSidebarOpen == old(isSidebarOpen) && isRightPanelOpen == old(isRightPanelOpen)
      ensures toasts == old(toasts)
    {
      isSettingsOpen := false;
    }

    /** Flips the right panel, and nothing else; two flips restore it. */
    method ToggleRightPanel()
      modifies this
      ensures isRightPanelOpen == !old(isRightPanelOpen)
      ensures isSidebarOpen == old(isSidebarOpen) && isSettingsOpen == old(isSettingsOpen)
      ensures toasts == old(toasts)
    {
      isRightPanelOpen := !isRightPanelOpen;
    }

    /** `showToast(message, type)`: one toast more at the end; the type is
        `info` when none is given. The id, drawn at random by the source,
        is a parameter. */
    method ShowToast(id: string, message: string, kind: Option<ToastType>)
      modifies this
      ensures toasts == old(toasts) + [Toast(id, message, kind.GetOr(Info))]
      ensures isSidebarOpen == old(isSidebarOpen) && isSettingsOpen == old(isSettingsOpen)
      ensures isRightPanelOpen == old(isRightPanelOpen)
    {
      toasts := toasts + [Toast(id, message, kind.GetOr(Info))];
    }

    /** `dismissToast(id)`: every toast with the id goes, the others stay
        in order. */
    method DismissToast(id: string)
      modifies this
      ensures toasts == Without(old(toasts), id)
      ensures isSidebarOpen == old(isSidebarOpen) && isSettingsOpen == old(isSettingsOpen)
      ensures isRightPanelOpen == old(isRightPanelOpen)
    {
      toasts := Without(toasts, id);
    }
  }
}
