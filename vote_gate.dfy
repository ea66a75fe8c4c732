/** The "vote once" gate of the poll: a count held in memory, two entries in the browser's
    local storage (the has-voted flag and the persisted count) and the vote button with its
    message. The functions Load and Click state what loading the page and clicking the
    button do; the class Page does the same step by step and is proved to agree with them. */
module VoteGate {
  import opened Wrappers
  import opened Numbers

  const VotedKey: string := "balen_v2_hasVoted"
  const CountKey: string := "balen_global_votes"
  /** The count shown when nothing has been persisted yet. */
  const BaseCount: int := 12450
  const VotedLabel: string := "Voted"
  const FlagValue: string := "true"

  /** Local storage: string values under string keys. */
  type Store = map<string, string>

  /** The part of the page the gate touches: the vote button, the thank-you message
      (hidden or not) and the count the poll display last rendered. */
  datatype Ui = Ui(disabled: bool, buttonText: string, messageHidden: bool, shown: Num)

  /** Everything the gate reads and writes. */
  datatype GateState = GateState(store: Store, count: Num, ui: Ui)

  /** `localStorage.getItem(key)`: null when there is no entry. */
  function GetItem(store: Store, key: string): Option<string> {
    if key in store then Some(store[key]) else None
  }

  /** `localStorage.setItem(key, value)`. */
  function SetItem(store: Store, key: string, value: string): Store {
    store[key := value]
  }

  /** What `setItem` wrote is what `getItem` reads under that key, and every other key
      reads as before. */
  lemma GetAfterSet(store: Store, key: string, value: string, other: string)
    ensures GetItem(SetItem(store, key, value), key) == Some(value)
    ensures other != key ==> GetItem(SetItem(store, key, value), other) == GetItem(store, other)
  {
  }

  /** JavaScript truthiness of what `getItem` returns: null and "" are false. */
  predicate Truthy(item: Option<string>) {
    item.Some? && item.value != ""
  }

  /** The test `localStorage.getItem('balen_v2_hasVoted')` makes. */
  predicate HasVoted(store: Store) {
    Truthy(GetItem(store, VotedKey))
  }

  /** `disableVoting()`: button disabled and relabelled, message revealed. */
  function Disable(ui: Ui): (r: Ui)
    ensures IsDisabled(r)
  {
    ui.(disabled := true, buttonText := VotedLabel, messageHidden := false)
  }

  /** The UI after `disableVoting()` has run, whatever it was before. */
  predicate IsDisabled(ui: Ui) {
    ui.disabled && ui.buttonText == VotedLabel && !ui.messageHidden
  }

  /** The count loading starts from: the base, or the stored count when one is stored. */
  function InitialCount(store: Store): Num {
    if Truthy(GetItem(store, CountKey)) then ParseNum(store[CountKey]) else Int(BaseCount)
  }

  /** Page load, given what local storage holds and how the page's markup sets up the UI. */
  function Load(store: Store, page: Ui): GateState {
    var count := InitialCount(store);
    var ui := page.(shown := count);
    GateState(store, count, if HasVoted(store) then Disable(ui) else ui)
  }

  /** A click on the vote button. */
  function Click(s: GateState): GateState {
    if HasVoted(s.store) then s
    else
      var count := s.count.Inc();
      var store := SetItem(SetItem(s.store, VotedKey, FlagValue), CountKey, NumToString(count));
      GateState(store, count, Disable(s.ui.(shown := count)))
  }

  /** `k` clicks in a row. */
  function Clicks(s: GateState, k: nat): GateState
    decreases k
  {
    if k == 0 then s else Clicks(Click(s), k - 1)
  }

  /** What holds on the page from load on, `initial` being the count load produced:
      the display shows the count; once the flag is stored the button is disabled;
      the count is the initial one, or one more than it once the flag is stored. */
  predicate GateInvariant(s: GateState, initial: Num) {
    && s.ui.shown == s.count
    && (HasVoted(s.store) ==> IsDisabled(s.ui))
    && (s.count == initial || (HasVoted(s.store) && s.count == initial.Inc()))
  }

  /** Loading starts from the base count exactly when no non-empty count is stored,
      and otherwise from the parsed stored count. */
  lemma LoadCount(store: Store, page: Ui)
    ensures !Truthy(GetItem(store, CountKey)) ==> Load(store, page).count == Int(BaseCount)
    ensures Truthy(GetItem(store, CountKey)) ==>
              Load(store, page).count == ParseNum(store[CountKey])
    ensures Load(store, page).store == store
  {
  }

  /** A stored flag disables the button at load; without one the markup's UI stays. */
  lemma LoadDisables(store: Store, page: Ui)
    ensures HasVoted(store) ==> IsDisabled(Load(store, page).ui)
    ensures !HasVoted(store) ==> Load(store, page).ui == page.(shown := Load(store, page).count)
  {
  }

  /** Nothing keeps the loaded count at or above the base: a stored "5" loads as 5. */
  lemma LoadNoBaseClamp(page: Ui)
    ensures Load(map[CountKey := "5"], page).count == Int(5)
    ensures Load(map[CountKey := "5"], page).count.value < BaseCount
  {
    assert DigitPrefix("5") == "5";
  }

  lemma LoadEstablishesInvariant(store: Store, page: Ui)
    ensures GateInvariant(Load(store, page), Load(store, page).count)
  {
  }

  /** The first vote adds exactly one, stores the flag and the new count and disables the
      button; every other storage entry is kept; the stored count reads back as the count. */
  lemma ClickWhenNotVoted(s: GateState)
    requires !HasVoted(s.store)
    ensures Click(s).count == s.count.Inc()
    ensures HasVoted(Click(s).store) && IsDisabled(Click(s).ui)
    ensures CountKey in Click(s).store && ParseNum(Click(s).store[CountKey]) == Click(s).count
    ensures forall k :: k != VotedKey && k != CountKey ==>
              GetItem(Click(s).store, k) == GetItem(s.store, k)
  {
    NumRoundTrip(s.count.Inc());
  }

  /** Once the flag is stored, a click changes nothing. */
  lemma ClickWhenVoted(s: GateState)
    requires HasVoted(s.store)
    ensures Click(s) == s
  {
  }

  /** A second click has no effect. */
  lemma ClickIdempotent(s: GateState)
    ensures Click(Click(s)) == Click(s)
  {
  }

  /** However many clicks, the count moves at most once and by one. */
  lemma {:induction false} ClicksAtMostOnce(s: GateState, k: nat)
    decreases k
    ensures k > 0 ==> Clicks(s, k) == Click(s)
    ensures Clicks(s, k).count == s.count || Clicks(s, k).count == s.count.Inc()
  {
    if k > 1 {
      ClicksAtMostOnce(Click(s), k - 1);
      ClickIdempotent(s);
    }
  }

  lemma ClickPreservesInvariant(s: GateState, initial: Num)
    requires GateInvariant(s, initial)
    ensures GateInvariant(Click(s), initial)
  {
  }

  /** Reloading the page after a vote shows the same count, with the button disabled. */
  lemma ReloadAfterVote(s: GateState, page: Ui)
    requires !HasVoted(s.store)
    ensures Load(Click(s).store, page).count == Click(s).count
    ensures IsDisabled(Load(Click(s).store, page).ui)
  {
    ClickWhenNotVoted(s);
  }

  /** The page: the module-level count, local storage and the UI, changed in place. */
  class Page {
    var store: Store
    var count: Num
    var ui: Ui
    /** The count the page started from. */
    ghost var initial: Num

    function State(): GateState
      reads this
    {
      GateState(store, count, ui)
    }

    ghost predicate Valid()
      reads this
    {
      GateInvariant(State(), initial)
    }

    /** The `DOMContentLoaded` set-up of the poll. */
    constructor (stored: Store, page: Ui)
      ensures Valid() && initial == count
      ensures State() == Load(stored, page)
    {
      store := stored;
      count := Int(BaseCount);
      ui := page;
      initial := Int(BaseCount);
      new;
      var storedCount := GetItem(store, CountKey);
      if Truthy(storedCount) {
        count := ParseNum(storedCount.value);
      }
      initial := count;
      UpdatePollUI(count);
      if Truthy(GetItem(store, VotedKey)) {
        DisableVoting();
      }
    }

    /** `updatePollUI(count)`: the display shows `c`. */
    method UpdatePollUI(c: Num)
      modifies this`ui
      ensures ui == old(ui).(shown := c)
    {
      ui := ui.(shown := c);
    }

    /** `disableVoting()`. */
    method DisableVoting()
      modifies this`ui
      ensures ui == Disable(old(ui))
    {
      ui := ui.(disabled := true, buttonText := VotedLabel, messageHidden := false);
    }

    /** The click handler of the vote button. */
    method ClickVote()
      requires Valid()
      modifies this
      ensures Valid() && initial == old(initial)
      ensures State() == Click(old(State()))
    {
      if !Truthy(GetItem(store, VotedKey)) {
        count := count.Inc();
        store := SetItem(store, VotedKey, FlagValue);
        store := SetItem(store, CountKey, NumToString(count));
        UpdatePollUI(count);
        DisableVoting();
      }
      ClickPreservesInvariant(old(State()), initial);
    }
  }
}
