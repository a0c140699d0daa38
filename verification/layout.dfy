/**
 * The layout of the viewer's floating grid: which side panel is shown next to
 * the 3D view. The toolbar's "Classifier" and "World" buttons and the
 * highlighter's select/clear events switch it. When the grid does not exist,
 * every handler leaves the layout alone (the clear handler still resets the
 * property table first, which is not part of this model).
 */
module Layout {

  /** The four layouts the grid declares. */
  datatype View = Main | Secondary | World | Classifier

  /** The events whose handlers assign a layout. */
  datatype Event =
    | ClassifierCommand  // toolbar button "Classifier"
    | WorldCommand       // toolbar button "World"
    | Highlight          // the highlighter reports a selection
    | Clear              // the highlighter reports the selection cleared

  /** The layout the grid is given when the viewer starts. */
  const INITIAL: View := Main

  /** One handler run: the layout after event `e` when the layout was `v`. */
  function Next(gridPresent: bool, v: View, e: Event): View {
    if !gridPresent then v
    else
      match e
      case ClassifierCommand => if v != Classifier then Classifier else Main
      case WorldCommand => World
      case Highlight => Secondary
      case Clear => Main
  }

  /** The layout after handling every event of `log`, in order, starting from `v`. */
  function Replay(gridPresent: bool, v: View, log: seq<Event>): View
    decreases |log|
  {
    if log == [] then v else Replay(gridPresent, Next(gridPresent, v, log[0]), log[1..])
  }

  /** The layout the user sees after the session's events `log`, starting from the initial layout. */
  function Current(gridPresent: bool, log: seq<Event>): View {
    Replay(gridPresent, INITIAL, log)
  }

  /** `n` presses of the "Classifier" button in a row. */
  function ClassifierPresses(n: nat): (log: seq<Event>)
    ensures |log| == n
    ensures forall k :: 0 <= k < n ==> log[k] == ClassifierCommand
  {
    if n == 0 then [] else [ClassifierCommand] + ClassifierPresses(n - 1)
  }

  /** Before any event the viewer shows the main layout. */
  lemma StartsAtMain(gridPresent: bool)
    ensures Current(gridPresent, []) == Main
  {
  }

  /**
   * The "Classifier" button opens the classifier panel from every other layout
   * and closes it back to the main layout; from the main layout two presses
   * return to it.
   */
  lemma ClassifierToggles(v: View)
    ensures v != Classifier ==> Next(true, v, ClassifierCommand) == Classifier
    ensures Next(true, Classifier, ClassifierCommand) == Main
    ensures Replay(true, Main, [ClassifierCommand, ClassifierCommand]) == Main
  {
    assert [ClassifierCommand, ClassifierCommand][1..] == [ClassifierCommand];
  }

  /**
   * The "World", highlight and clear events do not look at the prior layout:
   * from any two layouts they lead to the same one, the world panel, the
   * property panel and the main layout respectively.
   */
  lemma NavigationForgetsPriorLayout(v: View, w: View, e: Event)
    requires e != ClassifierCommand
    ensures Next(true, v, e) == Next(true, w, e)
    ensures e == WorldCommand ==> Next(true, v, e) == World
    ensures e == Highlight ==> Next(true, v, e) == Secondary
    ensures e == Clear ==> Next(true, v, e) == Main
  {
  }

  /** Pressing "World" again changes nothing. */
  lemma WorldIdempotent(gridPresent: bool, v: View)
    ensures Next(gridPresent, Next(gridPresent, v, WorldCommand), WorldCommand)
         == Next(gridPresent, v, WorldCommand)
  {
  }

  /** Without a grid no event, and so no log of events, changes the layout. */
  lemma {:induction false} NoGridNoChange(v: View, log: seq<Event>)
    ensures Replay(false, v, log) == v
    decreases |log|
  {
    if log != [] {
      NoGridNoChange(v, log[1..]);
    }
  }

  /** Handling a log in two parts is handling it whole. */
  lemma {:induction false} ReplayConcat(gridPresent: bool, v: View, a: seq<Event>, b: seq<Event>)
    ensures Replay(gridPresent, v, a + b) == Replay(gridPresent, Replay(gridPresent, v, a), b)
    decreases |a|
  {
    if a == [] {
      assert a + b == b;
    } else {
      assert (a + b)[0] == a[0];
      assert (a + b)[1..] == a[1..] + b;
      ReplayConcat(gridPresent, Next(gridPresent, v, a[0]), a[1..], b);
    }
  }

  /**
   * A "World", highlight or clear event wipes out the history before it: the
   * layout after `a + [e] + b` is the one that `b` alone produces from the
   * layout `e` sets.
   */
  lemma NavigationResetsHistory(v: View, a: seq<Event>, e: Event, b: seq<Event>)
    requires e != ClassifierCommand
    ensures Replay(true, v, a + [e] + b) == Replay(true, Next(true, Main, e), b)
  {
    ReplayConcat(true, v, a + [e], b);
    ReplayConcat(true, v, a, [e]);
    NavigationForgetsPriorLayout(Replay(true, v, a), Main, e);
  }

  /** The layout after a log that ends in a highlight is the property panel, after one that ends in a clear the main layout. */
  lemma LastSelectionEventDecides(v: View, a: seq<Event>)
    ensures Replay(true, v, a + [Highlight]) == Secondary
    ensures Replay(true, v, a + [Clear]) == Main
    ensures Replay(true, v, a + [WorldCommand]) == World
  {
    NavigationResetsHistory(v, a, Highlight, []);
    NavigationResetsHistory(v, a, Clear, []);
    NavigationResetsHistory(v, a, WorldCommand, []);
    assert a + [Highlight] + [] == a + [Highlight];
    assert a + [Clear] + [] == a + [Clear];
    assert a + [WorldCommand] + [] == a + [WorldCommand];
  }

  /**
   * After `n > 0` presses of "Classifier" the classifier panel is open exactly
   * when the number of presses is odd and it was closed at the start: the
   * button alternates between the classifier and the main layout.
   */
  lemma {:induction false} ClassifierPressesAlternate(v: View, n: nat)
    requires n > 0
    ensures Replay(true, v, ClassifierPresses(n))
         == if (n % 2 == 1) == (v != Classifier) then Classifier else Main
    decreases n
  {
    var log := ClassifierPresses(n);
    assert log[0] == ClassifierCommand && log[1..] == ClassifierPresses(n - 1);
    var w := Next(true, v, ClassifierCommand);
    if n > 1 {
      ClassifierPressesAlternate(w, n - 1);
    }
  }
}
