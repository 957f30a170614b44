/**
 * Per-worker notification preferences of the eligible-workers list: for
 * every listed worker, whether to notify by email, SMS and push.
 */
module NotificationPrefs {
  import opened MatchScoring

  /** The three channels a worker can be notified on. */
  datatype Channel = Email | Sms | Push

  /** The flags stored for one worker; a channel may be missing. */
  type Flags = map<Channel, bool>

  /** Every channel switched on. */
  const AllOn: Flags := map[Email := true, Sms := true, Push := true]

  /** The ids of a list of scored workers. */
  function WorkerIds(workers: seq<ScoredWorker>): (ids: set<string>)
    ensures forall i :: 0 <= i < |workers| ==> workers[i].workerId in ids
    ensures forall id :: id in ids ==> exists i :: 0 <= i < |workers| && workers[i].workerId == id
  {
    set i | 0 <= i < |workers| :: workers[i].workerId
  }

  /** The checkbox state shown for a channel: the stored flag, or on when none is stored. */
  function Shown(prefs: map<string, Flags>, worker: string, c: Channel): (on: bool)
    ensures worker !in prefs || c !in prefs[worker] ==> on
    ensures !on <==> worker in prefs && c in prefs[worker] && !prefs[worker][c]
  {
    if worker in prefs && c in prefs[worker] then prefs[worker][c] else true
  }

  /**
   * The preferences after flipping channel c of a worker. The worker's other
   * stored flags are copied; a flag that was never stored counts as off and
   * so becomes on.
   */
  function Toggled(prefs: map<string, Flags>, worker: string, c: Channel): (r: map<string, Flags>)
    ensures r.Keys == prefs.Keys + {worker}
    ensures forall w :: w in prefs && w != worker ==> r[w] == prefs[w]
    ensures c in r[worker] && r[worker][c] == !(worker in prefs && c in prefs[worker] && prefs[worker][c])
    ensures forall d :: d != c ==> (d in r[worker] <==> worker in prefs && d in prefs[worker])
    ensures forall d :: d != c && d in r[worker] ==> r[worker][d] == prefs[worker][d]
  {
    var current := if worker in prefs then prefs[worker] else map[];
    prefs[worker := current[c := !(c in current && current[c])]]
  }

  /** Flipping a stored flag twice gives back the preferences. */
  lemma ToggleTwice(prefs: map<string, Flags>, worker: string, c: Channel)
    requires worker in prefs && c in prefs[worker]
    ensures Toggled(Toggled(prefs, worker, c), worker, c) == prefs
  {
    var r := Toggled(Toggled(prefs, worker, c), worker, c);
    assert r[worker] == prefs[worker];
  }

  /** For a worker with a stored flag, a toggle flips exactly the checkbox clicked. */
  lemma ToggleFlipsShown(prefs: map<string, Flags>, worker: string, c: Channel)
    requires worker in prefs && c in prefs[worker]
    ensures Shown(Toggled(prefs, worker, c), worker, c) == !Shown(prefs, worker, c)
    ensures forall w, d :: (w, d) != (worker, c) ==>
              Shown(Toggled(prefs, worker, c), w, d) == Shown(prefs, w, d)
  {
  }

  /** For a worker with no stored preferences, the first toggle shows no change. */
  lemma ToggleUnknownWorker(prefs: map<string, Flags>, worker: string, c: Channel)
    requires worker !in prefs
    ensures Shown(prefs, worker, c) && Shown(Toggled(prefs, worker, c), worker, c)
    ensures Toggled(prefs, worker, c)[worker] == map[c := true]
  {
  }

  /** The preferences panel of the eligible-workers list. */
  class NotificationPanel {
    var prefs: map<string, Flags>

    constructor ()
      ensures prefs == map[]
    {
      prefs := map[];
    }

    /** Every listed worker starts with all channels on; earlier entries are dropped. */
    method InitNotificationPrefs(workers: seq<ScoredWorker>)
      modifies this
      ensures prefs.Keys == WorkerIds(workers)
      ensures forall w :: w in prefs ==> prefs[w] == AllOn
    {
      var built: map<string, Flags> := map[];
      for i := 0 to |workers|
        invariant built.Keys == WorkerIds(workers[..i])
        invariant forall w :: w in built ==> built[w] == AllOn
      {
        built := built[workers[i].workerId := AllOn];
        assert workers[..i + 1] == workers[..i] + [workers[i]];
      }
      assert workers[..|workers|] == workers;
      prefs := built;
    }

    /** Flip one channel of one worker; nothing else changes. */
    method ToggleNotification(worker: string, c: Channel)
      modifies this
      ensures prefs == Toggled(old(prefs), worker, c)
    {
      prefs := Toggled(prefs, worker, c);
    }
  }

  /** After initialisation, a toggle flips the clicked box of a listed worker. */
  lemma InitThenToggle(workers: seq<ScoredWorker>, prefs: map<string, Flags>, i: nat, c: Channel)
    requires i < |workers|
    requires prefs.Keys == WorkerIds(workers) && forall w :: w in prefs ==> prefs[w] == AllOn
    ensures !Shown(Toggled(prefs, workers[i].workerId, c), workers[i].workerId, c)
    ensures Toggled(Toggled(prefs, workers[i].workerId, c), workers[i].workerId, c) == prefs
  {
    var w := workers[i].workerId;
    assert w in prefs && c in prefs[w];
    ToggleTwice(prefs, w, c);
  }
}
