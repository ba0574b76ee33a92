/**
 * How `EventHandler::onStart` turns the configured `report_peers` entries
 * into the recipients of failure reports (base.php lines 117-133): `robot`
 * (in any case) becomes the robot's own id, `owner` becomes the owner id when
 * one is set and differs from the robot's, and anything else is kept as
 * written.
 */
module ReportPeers {
  import opened PhpRuntime
  import opened Config

  /** What one configured entry contributes, in the order `array_push` adds it. */
  function ResolvePeer(entry: string, robotID: int, ownerID: Value): seq<Value> {
    var key := Lower(entry);
    if key == "robot" then [VInt(robotID)]
    else if key == "owner" then (if ownerID != VNull && ownerID != VInt(robotID) then [ownerID] else [])
    else [VStr(entry)]
  }

  /** The recipients built from `entries`, each entry's contribution in turn. */
  function ResolvePeers(entries: seq<string>, robotID: int, ownerID: Value): (peers: seq<Value>)
    ensures |peers| <= |entries|
  {
    if entries == [] then []
    else ResolvePeers(entries[..|entries| - 1], robotID, ownerID) + ResolvePeer(entries[|entries| - 1], robotID, ownerID)
  }

  /** Resolution works entry by entry: the peers of a concatenation are the concatenated peers, in order. */
  lemma {:induction false} ResolvePeersAppend(a: seq<string>, b: seq<string>, robotID: int, ownerID: Value)
    ensures ResolvePeers(a + b, robotID, ownerID) == ResolvePeers(a, robotID, ownerID) + ResolvePeers(b, robotID, ownerID)
    decreases |b|
  {
    if b == [] {
      assert a + b == a;
    } else {
      var b' := b[..|b| - 1];
      assert (a + b)[..|a + b| - 1] == a + b';
      assert (a + b)[|a + b| - 1] == b[|b| - 1];
      ResolvePeersAppend(a, b', robotID, ownerID);
    }
  }

  /**
   * The contribution of entry `i` sits right after those of the entries
   * before it: a `robot` entry yields exactly the robot's id, an `owner` entry
   * the owner's id when it is set and is not the robot's and nothing
   * otherwise, and any other entry itself, unchanged.
   */
  lemma EntryContribution(entries: seq<string>, i: nat, robotID: int, ownerID: Value)
    requires i < |entries|
    ensures var before := ResolvePeers(entries[..i], robotID, ownerID);
      var after := ResolvePeers(entries[i + 1..], robotID, ownerID);
      var key := Lower(entries[i]);
      && (key == "robot" ==> ResolvePeers(entries, robotID, ownerID) == before + [VInt(robotID)] + after)
      && (key == "owner" && ownerID != VNull && ownerID != VInt(robotID) ==>
            ResolvePeers(entries, robotID, ownerID) == before + [ownerID] + after)
      && (key == "owner" && (ownerID == VNull || ownerID == VInt(robotID)) ==>
            ResolvePeers(entries, robotID, ownerID) == before + after)
      && (key != "robot" && key != "owner" ==>
            ResolvePeers(entries, robotID, ownerID) == before + [VStr(entries[i])] + after)
  {
    EntrySplit(entries, i, robotID, ownerID);
    var before := ResolvePeers(entries[..i], robotID, ownerID);
    var after := ResolvePeers(entries[i + 1..], robotID, ownerID);
    if Lower(entries[i]) == "owner" && (ownerID == VNull || ownerID == VInt(robotID)) {
      assert before + [] + after == before + after;
    }
  }

  lemma EntrySplit(entries: seq<string>, i: nat, robotID: int, ownerID: Value)
    requires i < |entries|
    ensures ResolvePeers(entries, robotID, ownerID) ==
            ResolvePeers(entries[..i], robotID, ownerID) + ResolvePeer(entries[i], robotID, ownerID)
            + ResolvePeers(entries[i + 1..], robotID, ownerID)
  {
    var single := [entries[i]];
    assert entries == (entries[..i] + single) + entries[i + 1..];
    ResolvePeersAppend(entries[..i] + single, entries[i + 1..], robotID, ownerID);
    ResolvePeersAppend(entries[..i], single, robotID, ownerID);
    assert single[..0] == [];
    assert ResolvePeers(single, robotID, ownerID) == ResolvePeer(entries[i], robotID, ownerID);
  }

  /** A peer is a recipient exactly when some entry contributes it. */
  lemma {:induction false} ResolvePeersMembers(entries: seq<string>, robotID: int, ownerID: Value, p: Value)
    ensures p in ResolvePeers(entries, robotID, ownerID) <==>
            exists i :: 0 <= i < |entries| && p in ResolvePeer(entries[i], robotID, ownerID)
  {
    if entries != [] {
      var init := entries[..|entries| - 1];
      ResolvePeersMembers(init, robotID, ownerID, p);
      if p in ResolvePeers(entries, robotID, ownerID) && p !in ResolvePeers(init, robotID, ownerID) {
        assert p in ResolvePeer(entries[|entries| - 1], robotID, ownerID);
      }
      forall i | 0 <= i < |entries| - 1 ensures init[i] == entries[i] { }
    }
  }

  /**
   * The robot's integer id is a recipient only when a `robot` entry asks for
   * it: an `owner` entry whose owner id is that same integer adds nothing.
   * This is about the integer id only; see `StringOwnerAlwaysAdded`.
   */
  lemma SelfReportOnlyWhenAsked(entries: seq<string>, robotID: int, ownerID: Value)
    ensures VInt(robotID) in ResolvePeers(entries, robotID, ownerID) <==>
            exists i :: 0 <= i < |entries| && Lower(entries[i]) == "robot"
  {
    ResolvePeersMembers(entries, robotID, ownerID, VInt(robotID));
    if exists i :: 0 <= i < |entries| && Lower(entries[i]) == "robot" {
      var i :| 0 <= i < |entries| && Lower(entries[i]) == "robot";
      assert VInt(robotID) in ResolvePeer(entries[i], robotID, ownerID);
    }
  }

  /**
   * `!==` compares types too, so an owner id given as a string is never the
   * robot's integer id: an `owner` entry adds it even when it spells the
   * robot's own number.
   */
  lemma StringOwnerAlwaysAdded(entry: string, robotID: int, owner: string)
    requires Lower(entry) == "owner"
    ensures ResolvePeer(entry, robotID, VStr(owner)) == [VStr(owner)]
  {
  }

  /**
   * The recipients are not deduplicated: each `owner` entry adds the owner's
   * id again, so two `owner` entries make the owner a recipient twice.
   */
  lemma OwnerEntriesRepeat(robotID: int, ownerID: Value)
    requires ownerID != VNull && ownerID != VInt(robotID)
    ensures ResolvePeers(["owner", "owner"], robotID, ownerID) == [ownerID, ownerID]
  {
    LowerOwner();
    assert ["owner", "owner"][..1] == ["owner"];
    assert ["owner"][..0] == [];
  }

  /** A literal-string helper: "owner" is already lower case. */
  lemma LowerOwner()
    ensures Lower("owner") == "owner"
  {
    var low := Lower("owner");
    assert |low| == |"owner"|;
    forall k | 0 <= k < |low| ensures low[k] == "owner"[k] {
    }
  }

  // ---------------------------------------------------------------------------
  // The configured entries, as PHP sees them
  // ---------------------------------------------------------------------------

  /**
   * What `foreach($this->config['report_peers'] ...)` iterates over: nothing
   * when the key is not set, and nothing when the value is not an array (PHP
   * only warns).
   */
  function ConfiguredEntries(config: map<string, Value>): seq<Value> {
    if IsSet(config, "report_peers") && config["report_peers"].VList? then config["report_peers"].items else []
  }

  /**
   * How many entries `strtolower` accepts before the first one that is not a
   * string; under `strict_types` that one throws a TypeError.
   */
  function StringEntries(entries: seq<Value>): (n: nat)
    ensures n <= |entries|
    ensures forall k :: 0 <= k < n ==> entries[k].VStr?
    ensures n == |entries| || !entries[n].VStr?
  {
    if entries == [] || !entries[0].VStr? then 0 else 1 + StringEntries(entries[1..])
  }

  /** The strings of a run of string entries. */
  function Names(entries: seq<Value>): (names: seq<string>)
    requires forall k :: 0 <= k < |entries| ==> entries[k].VStr?
    ensures |names| == |entries|
    ensures forall k :: 0 <= k < |entries| ==> names[k] == entries[k].s
  {
    seq(|entries|, k requires 0 <= k < |entries| => entries[k].s)
  }
}
