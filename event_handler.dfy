/**
 * The state `EventHandler` keeps between events (base.php lines 80-139): the
 * configuration, the robot's and the owner's ids, the start time and the
 * report peers. The constructor and `onStart` are the only code that writes
 * it; the per-event logic in the Dispatcher module only reads `robotID` and
 * `startTime`.
 */
module Handler {
  import opened PhpRuntime
  import opened Config
  import opened ReportPeers

  /** The startup notification `onStart` sends. */
  datatype Notice = SendMessage(peer: Value, text: string)

  const StartupText := "Robot just started."

  class EventHandler {
    const config: map<string, Value>
    const startTime: int
    var robotID: Option<int>   // None until `onStart` has looked up the robot itself
    var ownerID: Value         // VNull until `onStart` finds `owner_id` set
    var reportPeers: seq<Value>

    /**
     * `__construct`: `now` is what `time()` returned and `configFile` what
     * including `config.php` gave (None when there is no such file).
     */
    constructor(now: int, configFile: Option<map<string, Value>>)
      ensures config == GetConfig(configFile) && startTime == now
      ensures robotID == None && ownerID == VNull && reportPeers == []
    {
      startTime := now;
      config := GetConfig(configFile);
      robotID := None;
      ownerID := VNull;
      reportPeers := [];
    }

    /**
     * `onStart`, given the id `getSelf()` returned. Records the robot's id,
     * takes the owner's id from the configuration when it is set, and appends
     * the resolved report peers to `reportPeers` entry by entry. An entry that
     * is not a string makes `strtolower` throw; the peers pushed before it
     * stay. Without that error the startup notice to the robot follows.
     */
    method OnStart(self: int) returns (r: Result<Notice>)
      modifies this
      ensures robotID == Some(self)
      ensures ownerID == if IsSet(config, "owner_id") then config["owner_id"] else old(ownerID)
      ensures var entries := ConfiguredEntries(config);
        var n := StringEntries(entries);
        && reportPeers == old(reportPeers) + ResolvePeers(Names(entries[..n]), self, ownerID)
        && (r.Ok? <==> n == |entries|)
      ensures r.Ok? ==> r.value == SendMessage(VInt(self), StartupText)
    {
      var owner := if IsSet(config, "owner_id") then config["owner_id"] else ownerID;
      robotID, ownerID := Some(self), owner;
      var complete := PushReportPeers(ConfiguredEntries(config), self, owner);
      if !complete {
        return Err("TypeError: strtolower(): Argument #1 ($string) must be of type string");
      }
      r := Ok(SendMessage(VInt(self), StartupText));
    }

    /**
     * The `foreach` of `onStart`: pushes the peers of each entry in turn and
     * stops at the first entry that is not a string. Reports whether every
     * entry was a string.
     */
    method PushReportPeers(entries: seq<Value>, self: int, owner: Value) returns (complete: bool)
      modifies this`reportPeers
      ensures var n := StringEntries(entries);
        && reportPeers == old(reportPeers) + ResolvePeers(Names(entries[..n]), self, owner)
        && (complete <==> n == |entries|)
    {
      var n := StringEntries(entries);
      ghost var names := Names(entries[..n]);
      ghost var pushed := reportPeers;
      var i := 0;
      while i < |entries|
        invariant i <= n
        invariant reportPeers == pushed + ResolvePeers(names[..i], self, owner)
      {
        var entry := entries[i];
        if !entry.VStr? {
          WholePrefix(names, i);
          return false;
        }
        PushStep(entries, i, self, owner);
        ConcatAssociative(pushed, ResolvePeers(names[..i], self, owner), ResolvePeer(entry.s, self, owner));
        reportPeers := reportPeers + ResolvePeer(entry.s, self, owner);
        i := i + 1;
      }
      WholePrefix(names, i);
      complete := true;
    }
  }

  /** One more string entry adds its own contribution at the end. */
  lemma PushStep(entries: seq<Value>, i: nat, robotID: int, ownerID: Value)
    requires i < |entries| && i <= StringEntries(entries) && entries[i].VStr?
    ensures i < StringEntries(entries)
    ensures var names := Names(entries[..StringEntries(entries)]);
      ResolvePeers(names[..i + 1], robotID, ownerID)
      == ResolvePeers(names[..i], robotID, ownerID) + ResolvePeer(entries[i].s, robotID, ownerID)
  {
    var names := Names(entries[..StringEntries(entries)]);
    assert names[..i + 1][..i] == names[..i];
  }

  lemma WholePrefix<T>(s: seq<T>, i: nat)
    requires i == |s|
    ensures s[..i] == s
  {
  }
}
