/** Short runs of the store, with the list each one must leave behind. */
module Scenarios {
  import opened ToastQueue
  import opened Stores

  /** A more urgent toast jumps ahead of a default one. */
  method UrgentGoesFirst() {
    var store := new ToastStore<int>();
    store.AddOrReplaceToast(ToastRequest("a", None, 0));
    store.AddOrReplaceToast(ToastRequest("b", Some(PRIORITY_REALTIME), 0));
    assert store.toasts == [Toast("b", PRIORITY_REALTIME, 0), Toast("a", PRIORITY_DEFAULT, 0)];
    assert store.updateCount == 2;
  }

  /** Toasts of one priority stay in the order they were added. */
  method SameBandKeepsArrivalOrder() {
    var store := new ToastStore<int>();
    store.AddOrReplaceToast(ToastRequest("a", Some(PRIORITY_DEFAULT), 0));
    store.AddOrReplaceToast(ToastRequest("b", Some(PRIORITY_DEFAULT), 0));
    assert store.toasts == [Toast("a", PRIORITY_DEFAULT, 0), Toast("b", PRIORITY_DEFAULT, 0)];
  }

  /** A replacement stays where it is, even with a more urgent priority. */
  method ReplacementDoesNotMove() {
    var store := new ToastStore<int>();
    store.AddOrReplaceToast(ToastRequest("a", Some(PRIORITY_DEFAULT), 0));
    store.AddOrReplaceToast(ToastRequest("b", Some(PRIORITY_LOW), 0));
    store.AddOrReplaceToast(ToastRequest("b", Some(PRIORITY_REALTIME), 1));
    assert store.toasts == [Toast("a", PRIORITY_DEFAULT, 0), Toast("b", PRIORITY_REALTIME, 1)];
  }

  /** Dismissing the middle toast leaves the other two in order; dismissing an
      absent key changes nothing but still emits. */
  method DismissMiddleThenAbsent() {
    var store := new ToastStore<int>();
    store.AddOrReplaceToast(ToastRequest("a", None, 0));
    store.AddOrReplaceToast(ToastRequest("b", None, 0));
    store.AddOrReplaceToast(ToastRequest("c", None, 0));
    var a, c := Toast("a", PRIORITY_DEFAULT, 0), Toast("c", PRIORITY_DEFAULT, 0);
    assert store.toasts == [a] + [Toast("b", PRIORITY_DEFAULT, 0)] + [c];
    WithoutAroundMatch([a], Toast("b", PRIORITY_DEFAULT, 0), [c], "b");
    store.DismissToast("b");
    assert store.toasts == [Toast("a", PRIORITY_DEFAULT, 0), Toast("c", PRIORITY_DEFAULT, 0)];
    WithoutAbsent(store.toasts, "z");
    store.DismissToast("z");
    assert store.toasts == [Toast("a", PRIORITY_DEFAULT, 0), Toast("c", PRIORITY_DEFAULT, 0)];
    assert store.updateCount == 5;
    store.Reset();
    assert store.toasts == [] && store.updateCount == 5;
  }
}
