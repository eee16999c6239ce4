/**
  The two UI components of the widget, with the DOM replaced by sequences:

  - `TextField`: the text of the search input and the suggestion list,
    kept as the sequence of names its `li` elements show;
  - `SelectedRepos`: the pinned panel, kept as the sequence of its entries,
    and the `#addedRepos` key set used to suppress duplicates.

  Handlers are pure transitions over `App`, the state of both components and
  the `DataManager` they share. The network outcome of a query is a parameter.
 */
module Components {
  import opened JsText
  import DataManager

  /** The fields `#isValidKey` destructures from `evt.target`. When the
      target does not carry them, `ctrlKey` and `altKey` read as `false`
      (undefined is falsy) and `key` as `None`. */
  datatype EventTarget = EventTarget(value: string, ctrlKey: bool, altKey: bool, key: Option<string>)

  /** The event delivered to `inputHandler`; only its target is read. */
  datatype InputEvent = InputEvent(target: EventTarget)

  /** Navigation keys that must not trigger a query. */
  const SpecialKeys: seq<string> := ["Space", "ArrowDown", "ArrowUp", "ArrowLeft", "ArrowRight"]

  /** `#isValidKey(evt)`: all four conditions are read off `evt.target`.
      The key is accepted exactly when the text holds something other than
      whitespace, no modifier is down and the key is not a navigation key. */
  function IsValidKey(evt: InputEvent): (ok: bool)
    ensures ok <==> && !AllWhitespace(evt.target.value)
                    && !evt.target.ctrlKey && !evt.target.altKey
                    && (evt.target.key.None? || evt.target.key.value !in SpecialKeys)
  {
    var t := evt.target;
    TrimBlankIff(t.value);
    && Trim(t.value) != ""
    && !t.ctrlKey
    && !t.altKey
    && !(t.key.Some? && t.key.value in SpecialKeys)
  }

  /** The state of a `TextField`: the input's value and the suggestion list. */
  datatype TextField = TextField(text: string, suggestions: seq<string>)

  /** The names of the records, in order: what the suggestion list shows. */
  function Names(repos: seq<DataManager.Repo>): (ns: seq<string>)
    ensures |ns| == |repos|
    ensures forall i :: 0 <= i < |repos| ==> ns[i] == repos[i].name
  {
    if repos == [] then [] else [repos[0].name] + Names(repos[1..])
  }

  /** The `text` setter: stores the text and, when it is blank, clears the
      suggestion list. */
  function SetText(f: TextField, t: string): (g: TextField)
    ensures g.text == t
    ensures AllWhitespace(t) ==> g.suggestions == []
    ensures !AllWhitespace(t) ==> g.suggestions == f.suggestions
  {
    TrimBlankIff(t);
    if Trim(t) == "" then f.(text := t, suggestions := []) else f.(text := t)
  }

  /** `clearSuggestionsList()`: removes the first child until none is left. */
  method ClearSuggestionsList(f: TextField) returns (g: TextField)
    ensures g.text == f.text && g.suggestions == []
  {
    g := f;
    while g.suggestions != []
      invariant g.text == f.text
      decreases |g.suggestions|
    {
      g := g.(suggestions := g.suggestions[1..]);
    }
  }

  /** `#fillSuggestionsList(suggestions)`: clears the list, then appends one
      item per record, so the list ends up holding exactly their names in
      order and nothing from before. */
  method FillSuggestionsList(f: TextField, repos: seq<DataManager.Repo>) returns (g: TextField)
    ensures g.text == f.text
    ensures g.suggestions == Names(repos)
  {
    g := ClearSuggestionsList(f);
    var i := 0;
    while i < |repos|
      invariant 0 <= i <= |repos|
      invariant g.text == f.text
      invariant |g.suggestions| == i
      invariant forall k :: 0 <= k < i ==> g.suggestions[k] == repos[k].name
    {
      g := g.(suggestions := g.suggestions + [repos[i].name]);
      i := i + 1;
    }
  }

  /** One pinned entry: the Name, Owner and Stars it displays. */
  datatype PanelEntry = PanelEntry(name: string, owner: string, stars: int)

  /** The state of `SelectedRepos`: the panel's entries, oldest first, and
      the keys of every repository ever pinned. */
  datatype SelectedRepos = SelectedRepos(panel: seq<PanelEntry>, addedRepos: set<string>)

  /** How many entries the panel holds before the oldest is evicted. */
  const Capacity: nat := 3

  /** The duplicate-detection key: name and owner concatenated. */
  function EntryKey(e: PanelEntry): string {
    e.name + e.owner
  }

  /** The invariant the panel keeps: at most three entries, each entry's key
      recorded, and no two entries with the same key. */
  predicate Valid(s: SelectedRepos) {
    && |s.panel| <= Capacity
    && (forall i :: 0 <= i < |s.panel| ==> EntryKey(s.panel[i]) in s.addedRepos)
    && (forall i, j :: 0 <= i < j < |s.panel| ==> EntryKey(s.panel[i]) != EntryKey(s.panel[j]))
  }

  /** The state of the widget: the shared data manager and both components. */
  datatype App = App(manager: DataManager.Manager, field: TextField, selected: SelectedRepos)

  /** A freshly constructed widget. */
  const InitialApp: App := App(DataManager.Initial, TextField("", []), SelectedRepos([], {}))

  /** `inputHandler(evt)`, with the query's network outcome given and the
      promise's continuation run to completion. */
  function InputHandler(a: App, evt: InputEvent, outcome: DataManager.FetchOutcome): (b: App)
    ensures b.selected == a.selected && b.field.text == a.field.text
    // Blank input: the list is cleared and no query is issued.
    ensures AllWhitespace(evt.target.value) ==> b == a.(field := a.field.(suggestions := []))
    // A rejected key changes nothing.
    ensures !AllWhitespace(evt.target.value) && !IsValidKey(evt) ==> b == a
    // An accepted key queries the trimmed text and shows exactly the answer.
    ensures IsValidKey(evt) ==>
              var reply := DataManager.GetReposData(a.manager, Trim(evt.target.value), outcome);
              && b.manager == reply.manager
              && b.field.suggestions == Names(reply.data)
  {
    var inputText := Trim(evt.target.value);
    TrimBlankIff(evt.target.value);
    if inputText == "" then
      a.(field := a.field.(suggestions := []))
    else if !IsValidKey(evt) then
      a
    else
      var reply := DataManager.GetReposData(a.manager, inputText, outcome);
      a.(manager := reply.manager, field := a.field.(suggestions := Names(reply.data)))
  }

  /** The outcome of a click handler: the state afterwards, and whether the
      handler threw part-way (the state then holds what ran before). */
  datatype Handled = Handled(app: App, threw: bool)

  /** What is left of the panel after the capacity check at the top of
      `addRepoHandler`. */
  function Evict(panel: seq<PanelEntry>): (kept: seq<PanelEntry>)
    ensures |panel| >= Capacity ==> |kept| == |panel| - 1 && forall i :: 0 <= i < |kept| ==> kept[i] == panel[i + 1]
    ensures |panel| < Capacity ==> kept == panel
  {
    if |panel| >= Capacity then panel[1..] else panel
  }

  /** The part of `addRepoHandler` after the lookup: a known key leaves the
      panel as it is; a new key is recorded and its entry appended last. */
  function PinIfNew(s: SelectedRepos, e: PanelEntry): (t: SelectedRepos)
    ensures EntryKey(e) in s.addedRepos ==> t == s
    ensures EntryKey(e) !in s.addedRepos ==>
              && t.addedRepos == s.addedRepos + {EntryKey(e)}
              && |t.panel| == |s.panel| + 1
              && t.panel[..|s.panel|] == s.panel
              && t.panel[|s.panel|] == e
  {
    if EntryKey(e) in s.addedRepos then s
    else SelectedRepos(s.panel + [e], s.addedRepos + {EntryKey(e)})
  }

  /** `addRepoHandler(evt)` for a click on the suggestion named `repoName`.
      The oldest entry is evicted first; then the record is looked up,
      which throws when the lookup yields nothing to destructure; then a
      known key only clears the text, and a new key is recorded and its
      entry appended. */
  function AddRepoHandler(a: App, repoName: string): (h: Handled)
    ensures h.app.manager == a.manager
    // The panel never grows past three.
    ensures |a.selected.panel| <= Capacity ==> |h.app.selected.panel| <= Capacity
    // The eviction always takes effect: what follows only appends.
    ensures var kept := Evict(a.selected.panel);
            |kept| <= |h.app.selected.panel| <= |kept| + 1 && h.app.selected.panel[..|kept|] == kept
    // Keys are only ever added.
    ensures a.selected.addedRepos <= h.app.selected.addedRepos
    // The handler throws exactly when the lookup finds no record, and then
    // only the eviction has happened.
    ensures h.threw <==> !DataManager.GetRepoData(a.manager, repoName).Found?
    ensures h.threw ==> h.app == a.(selected := a.selected.(panel := Evict(a.selected.panel)))
    // Otherwise the text is cleared, and with it the suggestion list, and
    // the record's entry is pinned unless its key is known.
    ensures !h.threw ==>
              var repo := DataManager.GetRepoData(a.manager, repoName).repo;
              && h.app.field == TextField("", [])
              && h.app.selected == PinIfNew(a.selected.(panel := Evict(a.selected.panel)),
                                            PanelEntry(repoName, repo.owner, repo.stars))
  {
    var kept := Evict(a.selected.panel);
    var s1 := a.selected.(panel := kept);
    match DataManager.GetRepoData(a.manager, repoName)
    case NotFound => Handled(a.(selected := s1), true)
    case Thrown => Handled(a.(selected := s1), true)
    case Found(repo) =>
      var t := PinIfNew(s1, PanelEntry(repoName, repo.owner, repo.stars));
      assert t.panel[..|kept|] == kept;
      Handled(a.(selected := t, field := SetText(a.field, "")), false)
  }

  /** `#removeSelectedRepo` for a click on the delete icon of the entry at
      position `i`: that entry alone leaves the panel, and its key stays. */
  function RemoveSelectedRepo(s: SelectedRepos, i: nat): (t: SelectedRepos)
    requires i < |s.panel|
    ensures t.addedRepos == s.addedRepos
    ensures |t.panel| == |s.panel| - 1
    ensures forall j :: 0 <= j < i ==> t.panel[j] == s.panel[j]
    ensures forall j :: i <= j < |t.panel| ==> t.panel[j] == s.panel[j + 1]
    ensures multiset(t.panel) + multiset{s.panel[i]} == multiset(s.panel)
  {
    assert s.panel == s.panel[..i] + [s.panel[i]] + s.panel[i + 1..];
    s.(panel := s.panel[..i] + s.panel[i + 1..])
  }

  /** Evicting the oldest entry keeps the invariant and leaves room for one. */
  lemma EvictKeepsValid(s: SelectedRepos)
    requires Valid(s)
    ensures Valid(s.(panel := Evict(s.panel)))
    ensures |Evict(s.panel)| < Capacity
  {
    var kept := Evict(s.panel);
    if |s.panel| >= Capacity {
      forall i, j | 0 <= i < j < |kept| ensures EntryKey(kept[i]) != EntryKey(kept[j]) {
        assert kept[i] == s.panel[i + 1] && kept[j] == s.panel[j + 1];
      }
      forall i | 0 <= i < |kept| ensures EntryKey(kept[i]) in s.addedRepos {
        assert kept[i] == s.panel[i + 1];
      }
    }
  }

  /** Pinning into a panel with room keeps the invariant: a new key differs
      from every recorded one, hence from every entry's. */
  lemma PinKeepsValid(s: SelectedRepos, e: PanelEntry)
    requires Valid(s) && |s.panel| < Capacity
    ensures Valid(PinIfNew(s, e))
  {
    var t := PinIfNew(s, e);
    if EntryKey(e) !in s.addedRepos {
      forall i | 0 <= i < |s.panel| ensures t.panel[i] == s.panel[i] {
        assert t.panel[..|s.panel|][i] == s.panel[i];
      }
    }
  }

  /** `addRepoHandler` keeps the panel invariant. */
  lemma AddKeepsValid(a: App, repoName: string)
    requires Valid(a.selected)
    ensures Valid(AddRepoHandler(a, repoName).app.selected)
  {
    var s1 := a.selected.(panel := Evict(a.selected.panel));
    EvictKeepsValid(a.selected);
    match DataManager.GetRepoData(a.manager, repoName)
    case NotFound =>
    case Thrown =>
    case Found(repo) => PinKeepsValid(s1, PanelEntry(repoName, repo.owner, repo.stars));
  }

  /** Removing an entry keeps the panel invariant. */
  lemma RemoveKeepsValid(s: SelectedRepos, i: nat)
    requires Valid(s) && i < |s.panel|
    ensures Valid(RemoveSelectedRepo(s, i))
  {
    var t := RemoveSelectedRepo(s, i);
    forall x, y | 0 <= x < y < |t.panel| ensures EntryKey(t.panel[x]) != EntryKey(t.panel[y]) {
      var x' := if x < i then x else x + 1;
      var y' := if y < i then y else y + 1;
      assert t.panel[x] == s.panel[x'] && t.panel[y] == s.panel[y'];
    }
  }

  /** When the target carries no key information (as an input element
      does not), the key filter reduces to "the text is not blank". */
  lemma PlainTargetChecksOnlyText(value: string)
    ensures IsValidKey(InputEvent(EventTarget(value, false, false, None))) <==> !AllWhitespace(value)
  {
    TrimBlankIff(value);
  }

  /** `inputHandler` only ever hands the data manager a trimmed, non-empty
      query, so the manager's own empty-string guard is never what stops it. */
  lemma InputQueryIsTrimmed(a: App, evt: InputEvent, outcome: DataManager.FetchOutcome)
    ensures var b := InputHandler(a, evt, outcome);
            b.manager == a.manager
            || (&& b.manager.currentQuery == Trim(evt.target.value)
                && b.manager.currentQuery != ""
                && Trim(b.manager.currentQuery) == b.manager.currentQuery)
  {
    TrimIdempotent(evt.target.value);
  }

  /** After an accepted keystroke whose answer is cached (a hit or a
      successful fetch), clicking any suggestion on screen finds its record,
      so `addRepoHandler` does not throw. */
  lemma ShownSuggestionsResolve(a: App, evt: InputEvent, outcome: DataManager.FetchOutcome, k: nat)
    requires IsValidKey(evt)
    requires Trim(evt.target.value) in InputHandler(a, evt, outcome).manager.cache
    requires k < |InputHandler(a, evt, outcome).field.suggestions|
    ensures var b := InputHandler(a, evt, outcome);
            !AddRepoHandler(b, b.field.suggestions[k]).threw
  {
    var b := InputHandler(a, evt, outcome);
    var q := Trim(evt.target.value);
    var rs := b.manager.cache[q];
    assert b.manager.currentQuery == q;
    assert rs == DataManager.GetReposData(a.manager, q, outcome).data;
    assert rs[k].name == b.field.suggestions[k];
  }

  /** Clicking a repository that is already pinned while the panel is full
      still evicts the oldest entry: the eviction precedes the duplicate
      check, so the panel shrinks to two. */
  lemma DuplicateAtCapacityEvicts(a: App, repoName: string)
    requires |a.selected.panel| == Capacity
    requires DataManager.GetRepoData(a.manager, repoName).Found?
    requires repoName + DataManager.GetRepoData(a.manager, repoName).repo.owner in a.selected.addedRepos
    ensures AddRepoHandler(a, repoName).app.selected.panel == a.selected.panel[1..]
    ensures |AddRepoHandler(a, repoName).app.selected.panel| == Capacity - 1
  {
  }

  /** Below capacity, clicking a repository whose key is known leaves the
      panel and the keys as they are and only clears the text. */
  lemma DuplicateBelowCapacityKeepsPanel(a: App, repoName: string)
    requires |a.selected.panel| < Capacity
    requires DataManager.GetRepoData(a.manager, repoName).Found?
    requires repoName + DataManager.GetRepoData(a.manager, repoName).repo.owner in a.selected.addedRepos
    ensures AddRepoHandler(a, repoName).app.selected == a.selected
    ensures AddRepoHandler(a, repoName).app.field == TextField("", [])
  {
  }

  /** A user action on the widget. `Delete(i)` clicks the delete icon of the
      entry at position `i`; with no such entry there is nothing to click. */
  datatype Action =
    | Type(evt: InputEvent, outcome: DataManager.FetchOutcome)
    | Pick(repoName: string)
    | Delete(index: nat)
    | SetTextTo(text: string)

  /** One action. Typing changes the input's value directly (the `text`
      setter is not involved), and the debounced handler then reads that
      live value through `evt.target`. */
  function Step(a: App, act: Action): App {
    match act
    case Type(evt, outcome) => InputHandler(a.(field := a.field.(text := evt.target.value)), evt, outcome)
    case Pick(repoName) => AddRepoHandler(a, repoName).app
    case Delete(i) => if i < |a.selected.panel| then a.(selected := RemoveSelectedRepo(a.selected, i)) else a
    case SetTextTo(t) => a.(field := SetText(a.field, t))
  }

  function Run(a: App, acts: seq<Action>): App
    decreases |acts|
  {
    if acts == [] then a else Run(Step(a, acts[0]), acts[1..])
  }

  /** Every action keeps the panel invariant and gives no key back. */
  lemma StepKeepsValid(a: App, act: Action)
    requires Valid(a.selected)
    ensures Valid(Step(a, act).selected)
    ensures a.selected.addedRepos <= Step(a, act).selected.addedRepos
  {
    match act
    case Type(_, _) =>
    case Pick(repoName) => AddKeepsValid(a, repoName);
    case Delete(i) =>
      if i < |a.selected.panel| {
        RemoveKeepsValid(a.selected, i);
      }
    case SetTextTo(_) =>
  }

  /** After typing, the text field shows what was typed, and the query the
      handler sends is that text trimmed. */
  lemma TypedTextReachesInput(a: App, evt: InputEvent, outcome: DataManager.FetchOutcome)
    ensures Step(a, Type(evt, outcome)).field.text == evt.target.value
    ensures IsValidKey(evt) ==>
              Step(a, Type(evt, outcome)).manager.currentQuery == Trim(Step(a, Type(evt, outcome)).field.text)
  {
  }

  /** Over any session the panel invariant holds. */
  lemma {:induction false} SessionKeepsValid(a: App, acts: seq<Action>)
    requires Valid(a.selected)
    ensures Valid(Run(a, acts).selected)
    decreases |acts|
  {
    if acts != [] {
      StepKeepsValid(a, acts[0]);
      SessionKeepsValid(Step(a, acts[0]), acts[1..]);
    }
  }

  /** Once a repository has been pinned, no later click pins it again, even
      after it was evicted or deleted: its key is never released. */
  lemma {:induction false} PinnedNeverReturns(a: App, acts: seq<Action>, repoName: string)
    requires DataManager.GetRepoData(Run(a, acts).manager, repoName).Found?
    requires repoName + DataManager.GetRepoData(Run(a, acts).manager, repoName).repo.owner in a.selected.addedRepos
    ensures var b := Run(a, acts);
            AddRepoHandler(b, repoName).app.selected.panel == Evict(b.selected.panel)
  {
    SessionKeysGrow(a, acts);
  }

  /** Over any session `#addedRepos` only grows: neither eviction nor
      deletion gives a key back. */
  lemma {:induction false} SessionKeysGrow(a: App, acts: seq<Action>)
    ensures a.selected.addedRepos <= Run(a, acts).selected.addedRepos
    decreases |acts|
  {
    if acts != [] {
      SessionKeysGrow(Step(a, acts[0]), acts[1..]);
    }
  }

  /** The key is a plain concatenation, so two different repositories can
      share one: after pinning `ab` by `c`, `a` by `bc` is taken for a
      duplicate and is not pinned. */
  lemma KeyCollision()
    ensures var r1 := DataManager.Repo(1, "ab", "c", 0);
            var r2 := DataManager.Repo(2, "a", "bc", 0);
            var a := App(DataManager.Manager(map["q" := [r1, r2]], "q"), TextField("q", ["ab", "a"]), SelectedRepos([], {}));
            var b := AddRepoHandler(a, "ab").app;
            var c := AddRepoHandler(b, "a").app;
            c.selected.panel == [PanelEntry("ab", "c", 0)]
  {
    var r1 := DataManager.Repo(1, "ab", "c", 0);
    var r2 := DataManager.Repo(2, "a", "bc", 0);
    assert "ab" + "c" == "a" + "bc";
    var m := DataManager.Manager(map["q" := [r1, r2]], "q");
    assert DataManager.GetRepoData(m, "ab") == DataManager.Found(r1);
    assert DataManager.GetRepoData(m, "a") == DataManager.Found(r2);
  }

  lemma RunFirst(a: App, acts: seq<Action>)
    requires acts != []
    ensures Run(a, acts) == Run(Step(a, acts[0]), acts[1..])
  {
  }

  lemma RunSingle(a: App, act: Action)
    ensures Run(a, [act]) == Step(a, act)
  {
    assert [act][1..] == [];
  }

  /** The five records query "octo" answers in the scenario below. */
  function OctoRepos(): seq<DataManager.Repo> {
    [DataManager.Repo(1, "octo-1", "o", 10), DataManager.Repo(2, "octo-2", "o", 20),
     DataManager.Repo(3, "octo-3", "o", 5), DataManager.Repo(4, "octo-4", "o", 0),
     DataManager.Repo(5, "octo-5", "o", 99)]
  }

  function OctoManager(): DataManager.Manager {
    DataManager.Manager(map["octo" := OctoRepos()], "octo")
  }

  /** Each of the first four names is found at its own position. */
  lemma OctoLookup(name: string, n: nat)
    requires n < 4 && name == OctoRepos()[n].name
    ensures DataManager.GetRepoData(OctoManager(), name) == DataManager.Found(OctoRepos()[n])
  {
    var rs := OctoRepos();
    assert rs[0].name[5] == '1' && rs[1].name[5] == '2' && rs[2].name[5] == '3' && rs[3].name[5] == '4';
    var i := DataManager.FirstNamed(rs, name);
    assert i <= n;
    assert i == n;
  }

  /** A click whose lookup finds a record with a new key, on a panel with
      room: the entry is appended and its key recorded. */
  lemma PickNew(a: App, repoName: string, repo: DataManager.Repo)
    requires DataManager.GetRepoData(a.manager, repoName) == DataManager.Found(repo)
    requires repoName + repo.owner !in a.selected.addedRepos
    requires |a.selected.panel| < Capacity
    ensures Step(a, Pick(repoName)).manager == a.manager
    ensures Step(a, Pick(repoName)).selected ==
              SelectedRepos(a.selected.panel + [PanelEntry(repoName, repo.owner, repo.stars)],
                            a.selected.addedRepos + {repoName + repo.owner})
  {
  }

  lemma OctoFirst(a: App)
    requires a.manager == OctoManager() && a.selected == SelectedRepos([], {})
    ensures var c := Step(a, Pick("octo-1"));
            c.manager == OctoManager() && c.selected == SelectedRepos([PanelEntry("octo-1", "o", 10)], {"octo-1o"})
  {
    var rs := OctoRepos();
    OctoLookup("octo-1", 0);
    assert "octo-1" + "o" == "octo-1o";
    PickNew(a, "octo-1", rs[0]);
  }

  lemma OctoSecond(a: App)
    requires a.manager == OctoManager() && a.selected == SelectedRepos([PanelEntry("octo-1", "o", 10)], {"octo-1o"})
    ensures var c := Step(a, Pick("octo-2"));
            && c.manager == OctoManager()
            && c.selected == SelectedRepos([PanelEntry("octo-1", "o", 10), PanelEntry("octo-2", "o", 20)], {"octo-1o", "octo-2o"})
  {
    var rs := OctoRepos();
    OctoLookup("octo-2", 1);
    assert "octo-2" + "o" == "octo-2o";
    assert "octo-2o" !in a.selected.addedRepos by {
      assert "octo-2o"[5] == '2' && "octo-1o"[5] == '1';
    }
    PickNew(a, "octo-2", rs[1]);
  }

  lemma OctoThird(a: App)
    requires a.manager == OctoManager()
    requires a.selected == SelectedRepos([PanelEntry("octo-1", "o", 10), PanelEntry("octo-2", "o", 20)], {"octo-1o", "octo-2o"})
    ensures var c := Step(a, Pick("octo-3"));
            && c.manager == OctoManager()
            && c.selected.panel == [PanelEntry("octo-1", "o", 10), PanelEntry("octo-2", "o", 20), PanelEntry("octo-3", "o", 5)]
            && c.selected.addedRepos == {"octo-1o", "octo-2o", "octo-3o"}
  {
    var rs := OctoRepos();
    OctoLookup("octo-3", 2);
    assert "octo-3" + "o" == "octo-3o";
    assert "octo-3o" !in a.selected.addedRepos by {
      assert "octo-3o"[5] == '3' && "octo-2o"[5] == '2' && "octo-1o"[5] == '1';
    }
    PickNew(a, "octo-3", rs[2]);
  }

  lemma OctoFirstThree(a: App, acts: seq<Action>)
    requires a.manager == OctoManager() && a.selected == SelectedRepos([], {})
    requires acts == [Pick("octo-1"), Pick("octo-2"), Pick("octo-3")]
    ensures var b := Run(a, acts);
            && b.manager == OctoManager()
            && b.selected.panel == [PanelEntry("octo-1", "o", 10), PanelEntry("octo-2", "o", 20), PanelEntry("octo-3", "o", 5)]
            && b.selected.addedRepos == {"octo-1o", "octo-2o", "octo-3o"}
  {
    OctoFirst(a);
    var a1 := Step(a, acts[0]);
    OctoSecond(a1);
    var a2 := Step(a1, acts[1]);
    OctoThird(a2);
    RunFirst(a, acts);
    RunFirst(a1, acts[1..]);
    assert acts[1..][1..] == [acts[2]];
    RunSingle(a2, acts[2]);
  }

  lemma OctoFourth(b: App, fourth: Action)
    requires fourth == Pick("octo-4")
    requires b.manager == OctoManager()
    requires b.selected.panel == [PanelEntry("octo-1", "o", 10), PanelEntry("octo-2", "o", 20), PanelEntry("octo-3", "o", 5)]
    requires b.selected.addedRepos == {"octo-1o", "octo-2o", "octo-3o"}
    ensures Step(b, fourth).selected.panel ==
              [PanelEntry("octo-2", "o", 20), PanelEntry("octo-3", "o", 5), PanelEntry("octo-4", "o", 0)]
  {
    var rs := OctoRepos();
    OctoLookup("octo-4", 3);
    assert Evict(b.selected.panel) == [PanelEntry("octo-2", "o", 20), PanelEntry("octo-3", "o", 5)];
    assert "octo-4" + "o" == "octo-4o";
    assert "octo-4o" !in b.selected.addedRepos by {
      assert "octo-4o"[5] == '4' && "octo-1o"[5] == '1' && "octo-2o"[5] == '2' && "octo-3o"[5] == '3';
    }
  }

  lemma OctoDelete(c: App, delete: Action)
    requires delete == Delete(1)
    requires c.selected.panel == [PanelEntry("octo-2", "o", 20), PanelEntry("octo-3", "o", 5), PanelEntry("octo-4", "o", 0)]
    ensures Step(c, delete).selected.panel == [PanelEntry("octo-2", "o", 20), PanelEntry("octo-4", "o", 0)]
  {
    assert Step(c, delete).selected == RemoveSelectedRepo(c.selected, 1);
  }

  /** Query "octo" answers five records; pinning octo-1, octo-2 and octo-3
      fills the panel in that order, pinning octo-4 evicts octo-1, and
      deleting octo-3 leaves octo-2 and octo-4. */
  lemma OctoScenario(a: App, picks: seq<Action>, fourth: Action, delete: Action)
    requires a.manager == OctoManager() && a.selected == SelectedRepos([], {})
    requires picks == [Pick("octo-1"), Pick("octo-2"), Pick("octo-3")]
    requires fourth == Pick("octo-4") && delete == Delete(1)
    ensures var b := Run(a, picks);
            var c := Step(b, fourth);
            var e := Step(c, delete);
            && b.selected.panel == [PanelEntry("octo-1", "o", 10), PanelEntry("octo-2", "o", 20), PanelEntry("octo-3", "o", 5)]
            && c.selected.panel == [PanelEntry("octo-2", "o", 20), PanelEntry("octo-3", "o", 5), PanelEntry("octo-4", "o", 0)]
            && e.selected.panel == [PanelEntry("octo-2", "o", 20), PanelEntry("octo-4", "o", 0)]
  {
    OctoFirstThree(a, picks);
    var b := Run(a, picks);
    OctoFourth(b, fourth);
    OctoDelete(Step(b, fourth), delete);
  }
}
