/**
 * The state MainActivity keeps for one run of the app, and the handlers that
 * change it.  Every clock reading the activity takes is a `nowMs` parameter.
 */
module Activity {
  import opened Optional
  import opened Binning
  import opened Aggregator
  import opened DeviceSelection

  /** What the fill loop of onHeartRate leaves, followed by the write of the target bin, is `PlaceInBin`. */
  lemma GrownBinsArePlaced(before: seq<int>, grown: seq<int>, k: nat, fill: int, hr: int)
    requires |before| <= |grown| && grown[..|before|] == before
    requires |grown| == MaxNat(|before|, k + 1)
    requires forall i :: |before| <= i < |grown| ==> grown[i] == fill
    ensures grown[k := hr] == PlaceInBin(before, k, fill, hr)
  {
    var p := PlaceInBin(before, k, fill, hr);
    forall i | 0 <= i < |p| ensures grown[k := hr][i] == p[i] {
      if i < |before| && i != k {
        assert grown[i] == grown[..|before|][i];
      }
    }
  }

  class MainActivity {
    var sessionStartMs: int
    var currentHr: Option<int>
    var maxHr: Option<int>
    var minHr: Option<int>
    var hrBins: seq<int>

    /** The device the app is currently targeting. */
    var selectedDeviceId: Option<string>

    /** The session fields as one value. */
    function State(): SessionState
      reads this
    {
      SessionState(sessionStartMs, currentHr, maxHr, minHr, hrBins)
    }

    /** The field initialisers: no session yet and no device selected. */
    constructor ()
      ensures sessionStartMs == 0 && currentHr.None? && maxHr.None? && minHr.None? && hrBins == []
      ensures selectedDeviceId.None?
      ensures Consistent(State())
    {
      sessionStartMs := 0;
      currentHr := None;
      maxHr := None;
      minHr := None;
      hrBins := [];
      selectedDeviceId := None;
    }

    /** Start a new session at `nowMs`: no statistics and no bins. */
    method ResetSession(nowMs: int)
      modifies this
      ensures sessionStartMs == nowMs
      ensures currentHr.None? && maxHr.None? && minHr.None? && hrBins == []
      ensures selectedDeviceId == old(selectedDeviceId)
      ensures State() == ResetState(nowMs) && Consistent(State())
    {
      sessionStartMs := nowMs;
      currentHr := None;
      maxHr := None;
      minHr := None;
      hrBins := [];
    }

    /**
     * Handle one reading `hr` at clock time `nowMs`: start a session if none is
     * running, update current / max / min, grow the bin list up to the
     * reading's bin and write the reading there.
     */
    method OnHeartRate(hr: int, nowMs: int)
      modifies this
      ensures State() == Ingest(old(State()), Sample(hr, nowMs))
      ensures selectedDeviceId == old(selectedDeviceId)
      ensures old(Consistent(State())) ==> Consistent(State())
    {
      ghost var before := State();
      if currentHr.None? {
        ResetSession(nowMs);
      }
      ghost var started := State();
      currentHr := Some(hr);
      maxHr := Some(WidenMax(maxHr, hr));
      minHr := Some(NarrowMin(minHr, hr));

      var elapsedMs := nowMs - sessionStartMs;
      var binIndex: nat := if elapsedMs < 0 then 0 else elapsedMs / BinWidthMs;
      var fill := currentHr.GetOr(hr);
      while |hrBins| <= binIndex
        invariant |started.bins| <= |hrBins| <= MaxNat(|started.bins|, binIndex + 1)
        invariant hrBins[..|started.bins|] == started.bins
        invariant forall i :: |started.bins| <= i < |hrBins| ==> hrBins[i] == fill
        modifies this`hrBins
        decreases binIndex + 1 - |hrBins|
      {
        hrBins := hrBins + [currentHr.GetOr(hr)];
      }
      GrownBinsArePlaced(started.bins, hrBins, binIndex, fill, hr);
      hrBins := hrBins[binIndex := hr];

      assert started == if before.current.None? then ResetState(nowMs) else before;
      if Consistent(before) {
        IngestKeepsConsistent(before, Sample(hr, nowMs));
      }
    }

    /** The subscription of ensurePermissionsAndConnect: only the target's broadcasts are handled. */
    method OnBroadcast(targetId: string, b: Broadcast)
      modifies this
      ensures State() == if Accepts(targetId, b) then Ingest(old(State()), SampleOf(b)) else old(State())
      ensures selectedDeviceId == old(selectedDeviceId)
    {
      if b.deviceId == targetId {
        OnHeartRate(b.hr, b.receivedMs);
      }
    }

    /** A scan found a device: it becomes the selected one. */
    method OnDeviceFound(foundId: string)
      modifies this`selectedDeviceId
      ensures selectedDeviceId == Some(foundId)
    {
      selectedDeviceId := Some(foundId);
    }

    /**
     * The device choice of ensurePermissionsAndConnect.  The result is the
     * device to connect to and listen for; None means the method returned
     * early, leaving the selection as it was.
     */
    method EnsurePermissionsAndConnect(fieldText: string) returns (target: Option<string>)
      modifies this`selectedDeviceId
      ensures target == ChooseDeviceId(old(selectedDeviceId), fieldText)
      ensures target.None? ==> old(selectedDeviceId).None? && AllWhitespace(fieldText)
      ensures selectedDeviceId == if target.Some? then target else old(selectedDeviceId)
    {
      target := ChooseDeviceId(selectedDeviceId, fieldText);
      if target.None? {
        return;
      }
      selectedDeviceId := target;
    }
  }
}
