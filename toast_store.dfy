/** The mutable store: one ordered list of toasts, changed in place by its
    methods, and a count of the `update` notifications it has emitted. */
module Stores {
  import opened ToastQueue

  class ToastStore<P> {
    /** The active toasts, most urgent first. */
    var toasts: seq<Toast<P>>
    /** How many `update` notifications have been emitted so far. */
    var updateCount: nat

    constructor ()
      ensures toasts == [] && updateCount == 0
    {
      toasts := [];
      updateCount := 0;
    }

    /** Drops every toast; emits nothing. */
    method Reset()
      modifies this
      ensures toasts == [] && updateCount == old(updateCount)
    {
      toasts := [];
    }

    /** Adds a toast with a new key at the back of its priority band, or
        overwrites the toast with the same key where it stands; emits once. */
    method AddOrReplaceToast(newToast: ToastRequest<P>)
      modifies this
      ensures toasts == Upsert(old(toasts), WithDefaultPriority(newToast))
      ensures updateCount == old(updateCount) + 1
      ensures UniqueKeys(old(toasts)) ==> UniqueKeys(toasts)
    {
      var t := WithDefaultPriority(newToast);
      ghost var before := toasts;
      var oldIndex := IndexOfKey(toasts, t.key);
      if oldIndex == -1 {
        var newIndex := |toasts|;
        while newIndex > 0 && toasts[newIndex - 1].priority > t.priority
          invariant 0 <= newIndex <= |toasts|
          invariant forall j :: newIndex <= j < |toasts| ==> toasts[j].priority > t.priority
          decreases newIndex
        {
          newIndex := newIndex - 1;
        }
        InsertionPointCharacterized(toasts, t.priority, newIndex);
        toasts := toasts[..newIndex] + [t] + toasts[newIndex..];
      } else {
        toasts := toasts[oldIndex := t];
      }
      if UniqueKeys(before) {
        UpsertKeepsUniqueKeys(before, t);
      }
      updateCount := updateCount + 1;
    }

    /** Removes every toast with the given key (none, if it is absent); emits once. */
    method DismissToast(key: string)
      modifies this
      ensures toasts == Without(old(toasts), key)
      ensures updateCount == old(updateCount) + 1
      ensures UniqueKeys(old(toasts)) ==> UniqueKeys(toasts)
    {
      if UniqueKeys(toasts) {
        WithoutKeepsUniqueKeys(toasts, key);
      }
      toasts := Without(toasts, key);
      updateCount := updateCount + 1;
    }

    /** The current list, in queue order. */
    method GetToasts() returns (r: seq<Toast<P>>)
      ensures r == toasts
    {
      r := toasts;
    }
  }
}
