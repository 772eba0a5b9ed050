/**
 * A client of the scoped page cache that walks one database's files through
 * their whole lifecycle, using nothing but the contracts of the model.
 */
module Scenarios {
  import opened Wrappers
  import opened PageCache
  import opened DatabasePages

  /**
   * Maps two stores, looks one up under a non-canonical name, closes the
   * other's handle twice, closes the view twice and maps once more after
   * the view is closed.
   */
  method TwoStoreLifecycle(fs: FileSystem)
    returns (mapped: bool, afterMaps: seq<DatabasePageFile>, found: bool,
             afterFileClose: nat, afterSecondFileClose: nat, afterScopeClose: nat,
             secondClose: Outcome<Error>, events: seq<Event>, remapped: bool, afterRemap: nat)
    requires fs.canonicalFile("/db/./b.store") == Some("/db/b.store")
    ensures mapped ==>
      |afterMaps| == 2 && found &&
      afterFileClose == 1 && afterSecondFileClose == 1 &&
      |events| == 3 && events[0] == events[1] == Closed(afterMaps[0].delegate) && events[2] == Closed(afterMaps[1].delegate)
    ensures afterScopeClose == 0
    ensures secondClose == Fail(IllegalState(AlreadyClosedMessage))
    ensures remapped ==> afterRemap == 1
  {
    var global := new GlobalPageCache();
    var scope := new DatabasePageCache(global);
    var a := scope.Map("/db/a.store", 8192, []);
    var b := scope.Map("/db/b.store", 8192, []);
    mapped := a.Success? && b.Success?;
    found, afterFileClose, afterSecondFileClose := false, 0, 0;
    afterMaps := scope.ListExistingMappings();
    if mapped {
      var lookup := scope.GetExistingMapping(fs, "/db/./b.store");
      assert "/db/a.store" != "/db/b.store";
      found := lookup == Success(Some(b.value));

      a.value.Close();
      assert scope.Valid();
      var listed := scope.ListExistingMappings();
      assert listed == [b.value];
      afterFileClose := |listed|;

      a.value.Close();
      listed := scope.ListExistingMappings();
      afterSecondFileClose := |listed|;
      // the copy taken earlier is not affected by the removals
      assert |afterMaps| == 2;
    }
    var first := scope.Close();
    var listed := scope.ListExistingMappings();
    afterScopeClose := |listed|;
    secondClose := scope.Close();
    events := global.events;

    var again := scope.Map("/db/c.store", 8192, []);
    remapped := again.Success?;
    listed := scope.ListExistingMappings();
    afterRemap := |listed|;
  }
}
