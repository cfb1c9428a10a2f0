/** The habit list and the add/edit form of the main screen: the form state,
    the save gate, opening the form, saving, the confirmed delete and the
    weekday chips. Each React state setter becomes a pure function from the
    old state to the new one. */
module Habits {

  import opened Optional

  /** A stored habit. `days` may be missing on a habit record, hence Option. */
  datatype Habit = Habit(
    title: string,
    description: string,
    color: string,
    reminderTime: Option<string>,
    days: Option<seq<string>>)

  /** The form fields of the modal and the index of the habit being edited
      (None while adding a new habit). */
  datatype Form = Form(
    title: string,
    description: string,
    color: Option<string>,
    time: Option<string>,
    days: seq<string>,
    editIndex: Option<nat>)

  /** JavaScript truthiness of a `string | undefined`: defined and non-empty. */
  predicate IsFilled(o: Option<string>) {
    o.Some? && |o.value| > 0
  }

  /** The save button is enabled when the title is non-empty, at least one
      day is selected, a reminder time is set and a color is chosen. */
  function SaveEnabled(f: Form): (enabled: bool)
    ensures enabled <==> f.color.Some? && Complete(HabitOf(f))
  {
    |f.title| > 0 && |f.days| > 0 && IsFilled(f.time) && IsFilled(f.color)
  }

  /** The shape every habit that went through the save gate has. */
  predicate Complete(h: Habit) {
    && |h.title| > 0
    && |h.color| > 0
    && IsFilled(h.reminderTime)
    && h.days.Some? && |h.days.value| > 0
  }

  predicate AllComplete(habits: seq<Habit>) {
    forall k :: 0 <= k < |habits| ==> Complete(habits[k])
  }

  /** The habit the save button builds from the form fields. */
  function HabitOf(f: Form): Habit
    requires f.color.Some?
  {
    Habit(f.title, f.description, f.color.value, f.time, Some(f.days))
  }

  const EmptyForm := Form("", "", None, None, [], None)

  /** Opens the modal: with no index the form is cleared for a new habit,
      with an index the form is loaded from that habit (missing days read as
      no days). */
  function OpenModal(habits: seq<Habit>, index: Option<nat>): (f: Form)
    requires index.Some? ==> index.value < |habits|
    ensures f.editIndex == index
    ensures index.None? ==>
      && f.title == "" && f.description == "" && f.color.None? && f.time.None?
      && f.days == [] && !SaveEnabled(f)
    ensures index.Some? ==>
      var h := habits[index.value];
      && f.title == h.title && f.description == h.description
      && f.color == Some(h.color) && f.time == h.reminderTime
      && (h.days.None? ==> f.days == [])
      && (h.days.Some? ==> f.days == h.days.value)
    ensures index.Some? ==> (SaveEnabled(f) <==> Complete(habits[index.value]))
    ensures index.Some? && SaveEnabled(f) ==> HabitOf(f) == habits[index.value]
  {
    match index
    case None => EmptyForm
    case Some(i) =>
      var h := habits[i];
      Form(h.title, h.description, Some(h.color), h.reminderTime,
           if h.days.Some? then h.days.value else [], index)
  }

  /** Pressing save: nothing happens unless the gate is open; otherwise the
      edited habit is replaced in place, or a new habit is appended. */
  function AddOrEdit(habits: seq<Habit>, f: Form): (r: seq<Habit>)
    requires f.editIndex.Some? ==> f.editIndex.value < |habits|
    ensures !SaveEnabled(f) ==> r == habits
    ensures SaveEnabled(f) && f.editIndex.None? ==>
      |r| == |habits| + 1 && r[..|habits|] == habits && r[|habits|] == HabitOf(f)
    ensures SaveEnabled(f) && f.editIndex.Some? ==>
      && |r| == |habits|
      && r[f.editIndex.value] == HabitOf(f)
      && forall k :: 0 <= k < |r| && k != f.editIndex.value ==> r[k] == habits[k]
  {
    if !SaveEnabled(f) then habits
    else match f.editIndex
      case Some(i) => habits[i := HabitOf(f)]
      case None => habits + [HabitOf(f)]
  }

  /** `s` without the element at position `i`, the others in their original
      order; an index past the end removes nothing. */
  function RemoveAt<T>(s: seq<T>, i: nat): (r: seq<T>)
    ensures i < |s| ==> |r| == |s| - 1
    ensures i >= |s| ==> r == s
    ensures forall k :: 0 <= k < |r| && k < i ==> r[k] == s[k]
    ensures forall k :: i <= k < |r| ==> r[k] == s[k + 1]
    ensures i < |s| ==> multiset(r) == multiset(s) - multiset{s[i]}
    decreases |s|
  {
    if |s| == 0 then []
    else
      assert s == [s[0]] + s[1..];
      if i == 0 then s[1..]
      else
        var rest := RemoveAt(s[1..], i - 1);
        var r := [s[0]] + rest;
        assert forall k :: 1 <= k < |r| ==> r[k] == rest[k - 1];
        r
  }

  /** The confirmed branch of delete: the habit being edited is removed; with
      no edit index nothing happens. */
  function DeleteHabit(habits: seq<Habit>, editIndex: Option<nat>): (r: seq<Habit>)
    ensures editIndex.None? ==> r == habits
    ensures editIndex.Some? && editIndex.value < |habits| ==>
      var i := editIndex.value;
      |r| == |habits| - 1 && r[..i] == habits[..i] && r[i..] == habits[i + 1..]
    ensures editIndex.Some? && editIndex.value >= |habits| ==> r == habits
  {
    match editIndex
    case None => habits
    case Some(i) =>
      var r := RemoveAt(habits, i);
      assert i < |habits| ==> r[..i] == habits[..i] && r[i..] == habits[i + 1..] by {
        if i < |habits| {
        }
      }
      r
  }

  /** Every occurrence of `d` removed, the other days kept in order. */
  function RemoveAll(days: seq<string>, d: string): (r: seq<string>)
    ensures multiset(r) == multiset(days)[d := 0]
    ensures forall x :: x in r <==> x in days && x != d
    ensures d !in days ==> r == days
    decreases |days|
  {
    if |days| == 0 then []
    else
      assert days == [days[0]] + days[1..];
      (if days[0] == d then [] else [days[0]]) + RemoveAll(days[1..], d)
  }

  /** Pressing a weekday chip: a selected day is deselected (all its
      occurrences), an unselected one is appended. */
  function ToggleDay(days: seq<string>, d: string): (r: seq<string>)
    ensures d in r <==> d !in days
    ensures forall x :: x != d ==> (x in r <==> x in days)
    ensures d !in days ==> r == days + [d]
    ensures d in days ==> multiset(r) == multiset(days)[d := 0]
  {
    if d in days then RemoveAll(days, d) else days + [d]
  }

  /** Every day occurs at most once. */
  predicate NoDuplicates(days: seq<string>) {
    forall x :: x in days ==> multiset(days)[x] <= 1
  }

  // ---------------------------------------------------------------------
  // Properties of the form and the list
  // ---------------------------------------------------------------------

  /** Clearing any one of the four required fields closes the save gate. */
  lemma ClearingAnyFieldDisablesSave(f: Form)
    ensures !SaveEnabled(f.(title := ""))
    ensures !SaveEnabled(f.(days := []))
    ensures !SaveEnabled(f.(time := None))
    ensures !SaveEnabled(f.(color := None))
  {
  }

  /** Deselecting the only selected day closes the save gate. */
  lemma DeselectingLastDayDisablesSave(f: Form, d: string)
    requires f.days == [d]
    ensures !SaveEnabled(f.(days := ToggleDay(f.days, d)))
  {
    var r := ToggleDay(f.days, d);
    assert multiset(r) == multiset{};
  }

  /** Saving keeps every stored habit complete. */
  lemma AddOrEditKeepsHabitsComplete(habits: seq<Habit>, f: Form)
    requires f.editIndex.Some? ==> f.editIndex.value < |habits|
    requires AllComplete(habits)
    ensures AllComplete(AddOrEdit(habits, f))
  {
  }

  /** Deleting keeps every stored habit complete. */
  lemma DeleteKeepsHabitsComplete(habits: seq<Habit>, editIndex: Option<nat>)
    requires AllComplete(habits)
    ensures AllComplete(DeleteHabit(habits, editIndex))
  {
  }

  /** Opening a habit for editing and saving without touching the form
      leaves the list exactly as it was. */
  lemma ReopenAndSaveIsNoOp(habits: seq<Habit>, i: nat)
    requires i < |habits|
    ensures AddOrEdit(habits, OpenModal(habits, Some(i))) == habits
  {
    var f := OpenModal(habits, Some(i));
    if SaveEnabled(f) {
      assert AddOrEdit(habits, f) == habits[i := habits[i]];
    }
  }

  /** Removing all copies distributes over concatenation (a filter). */
  lemma {:induction false} RemoveAllAppend(a: seq<string>, b: seq<string>, d: string)
    ensures RemoveAll(a + b, d) == RemoveAll(a, d) + RemoveAll(b, d)
    decreases |a|
  {
    if |a| == 0 {
      assert a + b == b;
    } else {
      assert (a + b)[1..] == a[1..] + b;
      RemoveAllAppend(a[1..], b, d);
    }
  }

  /** Toggling an unselected day twice gives back exactly the original list. */
  lemma ToggleTwiceRestoresAbsent(days: seq<string>, d: string)
    requires d !in days
    ensures ToggleDay(ToggleDay(days, d), d) == days
  {
    RemoveAllAppend(days, [d], d);
    assert RemoveAll([d], d) == [];
  }

  /** Toggling a selected day twice moves it to the end, once, and keeps
      the set of selected days. */
  lemma ToggleTwiceKeepsSelection(days: seq<string>, d: string)
    requires d in days
    ensures ToggleDay(ToggleDay(days, d), d) == RemoveAll(days, d) + [d]
    ensures forall x :: x in ToggleDay(ToggleDay(days, d), d) <==> x in days
  {
  }

  /** A duplicate-free selection stays duplicate-free under a toggle. */
  lemma ToggleKeepsNoDuplicates(days: seq<string>, d: string)
    requires NoDuplicates(days)
    ensures NoDuplicates(ToggleDay(days, d))
  {
    var r := ToggleDay(days, d);
    if d !in days {
      assert multiset(r) == multiset(days) + multiset{d};
    }
  }

}
