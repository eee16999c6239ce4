/**
  The earlier single-file draft of the widget (script.js), as transitions
  over the page state: the input's value, the suggestion list as the names
  it shows, and the pinned panel as the names its entries show.

  This draft has no cache, no capacity bound and no duplicate check; its
  key filter reads the keystroke from the event itself. Its `debounce` is
  `Debounce.InvokeDraft`.
 */
module DraftScript {
  import opened JsText
  import DataManager
  import Components

  /** The keydown event: the key and modifiers of the event itself, and the
      input's value read through `evt.target`. */
  datatype KeyboardEvent = KeyboardEvent(key: string, ctrlKey: bool, altKey: bool, targetValue: string)

  /** `isCorrectKey(evt)`: a chain of conditions, each of which rejects.
      Together they accept exactly a non-blank text typed with no modifier
      and with a key that is not a navigation key. */
  function IsCorrectKey(evt: KeyboardEvent): (ok: bool)
    ensures ok <==> && !AllWhitespace(evt.targetValue)
                    && !evt.ctrlKey && !evt.altKey
                    && evt.key !in Components.SpecialKeys
  {
    TrimBlankIff(evt.targetValue);
    && Trim(evt.targetValue) != ""
    && !evt.ctrlKey
    && !evt.altKey
    && evt.key != "Space"
    && evt.key != "ArrowDown"
    && evt.key != "ArrowUp"
    && evt.key != "ArrowLeft"
    && evt.key != "ArrowRight"
  }

  /** The page: the input's value, the suggestion list and the pinned panel. */
  datatype Page = Page(input: string, list: seq<string>, panel: seq<string>)

  /** The names of the raw search results, in order: the same names the
      component shows for their normalised records. */
  function RawNames(items: seq<DataManager.RawRepo>): (ns: seq<string>)
    ensures |ns| == |items|
    ensures forall i :: 0 <= i < |items| ==> ns[i] == items[i].name
  {
    Components.Names(DataManager.ExtractAll(items))
  }

  /** `SendRequest` followed by `addListItems(repos.items)`: the names to
      append, or `None` when the chain rejects (the fetch or the body fails,
      a non-ok status yields `null`, or `items` is missing) and the `catch`
      swallows it. */
  function ListedNames(outcome: DataManager.FetchOutcome): (r: Option<seq<string>>)
    ensures r.Some? <==> outcome.Response? && DataManager.IsOk(outcome.status)
                         && outcome.body.Json? && outcome.body.items.Some?
    ensures r.Some? ==> r.value == RawNames(outcome.body.items.value)
  {
    match outcome
    case NetworkError => None
    case Response(status, body) =>
      if !DataManager.IsOk(status) then None
      else
        match body
        case Unparsable => None
        case Json(items) => if items.Some? then Some(RawNames(items.value)) else None
  }

  /** A keystroke followed by `fillSelectionList(evt)`, with the request's
      outcome given. By the time the debounced handler runs, the keystroke
      has reached the input, so the input holds the value the handler reads
      through `evt.target`. */
  function FillSelectionList(p: Page, evt: KeyboardEvent, outcome: DataManager.FetchOutcome): (q: Page)
    ensures q.input == evt.targetValue && q.panel == p.panel
    // Backspace on an empty input clears the list.
    ensures evt.key == "Backspace" && evt.targetValue == "" ==> q.list == []
    // An accepted key clears the list before the request, so the list ends
    // up holding the answer alone, or nothing when the request fails.
    ensures IsCorrectKey(evt) ==>
              q.list == (var names := ListedNames(outcome); if names.Some? then names.value else [])
    // Any other keystroke leaves the list alone.
    ensures !IsCorrectKey(evt) && !(evt.key == "Backspace" && evt.targetValue == "") ==> q.list == p.list
  {
    var p0 := p.(input := evt.targetValue);
    var p1 := if evt.key == "Backspace" && evt.targetValue == "" then p0.(list := []) else p0;
    if IsCorrectKey(evt) then
      var p2 := p1.(list := []);
      match ListedNames(outcome)
      case None => p2
      case Some(names) => p2.(list := p2.list + names)
    else
      p1
  }

  /** `addSelectedRepo(evt)` for a click on the list item reading `name`:
      clears the input and the list and appends one entry, with no bound
      and no duplicate check. */
  function AddSelectedRepo(p: Page, name: string): (q: Page)
    ensures q.input == "" && q.list == []
    ensures |q.panel| == |p.panel| + 1
    ensures q.panel[..|p.panel|] == p.panel && q.panel[|p.panel|] == name
  {
    Page("", [], p.panel + [name])
  }

  /** `removeSelectedRepo(evt)` for a click on the delete icon of the entry
      at position `i`: that entry alone leaves the panel. */
  function RemoveSelectedRepo(p: Page, i: nat): (q: Page)
    requires i < |p.panel|
    ensures q.input == p.input && q.list == p.list
    ensures |q.panel| == |p.panel| - 1
    ensures forall j :: 0 <= j < i ==> q.panel[j] == p.panel[j]
    ensures forall j :: i <= j < |q.panel| ==> q.panel[j] == p.panel[j + 1]
  {
    p.(panel := p.panel[..i] + p.panel[i + 1..])
  }

  /** The draft's key filter and the component's agree when the component
      is handed, on its target, the fields the draft reads off the event. */
  lemma KeyFiltersAgree(evt: KeyboardEvent)
    ensures IsCorrectKey(evt) <==>
              Components.IsValidKey(Components.InputEvent(
                Components.EventTarget(evt.targetValue, evt.ctrlKey, evt.altKey, Some(evt.key))))
  {
  }

  /** Picking the same name `n` times in a row pins it `n` times: the draft
      panel has neither a bound nor a duplicate check. */
  function PickRepeatedly(p: Page, name: string, n: nat): Page
    decreases n
  {
    if n == 0 then p else PickRepeatedly(AddSelectedRepo(p, name), name, n - 1)
  }

  lemma {:induction false} PanelUnbounded(p: Page, name: string, n: nat)
    ensures |PickRepeatedly(p, name, n).panel| == |p.panel| + n
    ensures forall j :: |p.panel| <= j < |p.panel| + n ==> PickRepeatedly(p, name, n).panel[j] == name
    decreases n
  {
    if n > 0 {
      var p1 := AddSelectedRepo(p, name);
      PanelUnbounded(p1, name, n - 1);
      var q := PickRepeatedly(p1, name, n - 1);
      forall j | |p.panel| <= j < |p.panel| + n ensures q.panel[j] == name {
        if j == |p.panel| {
          assert q.panel[..|p1.panel|] == p1.panel by {
            PickKeepsPrefix(p1, name, n - 1);
          }
          assert q.panel[j] == q.panel[..|p1.panel|][j];
        }
      }
    }
  }

  lemma {:induction false} PickKeepsPrefix(p: Page, name: string, n: nat)
    ensures |PickRepeatedly(p, name, n).panel| >= |p.panel|
    ensures PickRepeatedly(p, name, n).panel[..|p.panel|] == p.panel
    decreases n
  {
    if n > 0 {
      var p1 := AddSelectedRepo(p, name);
      PickKeepsPrefix(p1, name, n - 1);
      var q := PickRepeatedly(p1, name, n - 1);
      assert q.panel[..|p.panel|] == q.panel[..|p1.panel|][..|p.panel|];
    }
  }
}
