/**
 * Which device MainActivity connects to, and which heart-rate broadcasts it
 * passes on to the aggregator.
 */
module DeviceSelection {
  import opened Optional
  import opened Aggregator

  /**
   * The characters Kotlin's `Char.isWhitespace` accepts, which is what
   * `String.trim()` strips: the ASCII controls TAB..CR and FS..US, and the
   * Unicode space, line and paragraph separators (no-break spaces included).
   */
  predicate IsWhitespace(c: char)
  {
    || ('\t' <= c <= '\r')
    || ('\U{1C}' <= c <= '\U{1F}')
    || c == ' '
    || c == '\U{A0}'
    || c == '\U{1680}'
    || ('\U{2000}' <= c <= '\U{200A}')
    || c == '\U{2028}'
    || c == '\U{2029}'
    || c == '\U{202F}'
    || c == '\U{205F}'
    || c == '\U{3000}'
  }

  predicate AllWhitespace(s: string)
  {
    forall i :: 0 <= i < |s| ==> IsWhitespace(s[i])
  }

  /** `s` without its leading whitespace. */
  function TrimStart(s: string): (r: string)
    ensures |r| <= |s| && r == s[|s| - |r|..]
    ensures AllWhitespace(s[..|s| - |r|])
    ensures r != [] ==> !IsWhitespace(r[0])
    decreases |s|
  {
    if s != [] && IsWhitespace(s[0]) then
      var r := TrimStart(s[1..]);
      assert s[..|s| - |r|] == [s[0]] + s[1..][..|s| - 1 - |r|];
      r
    else s
  }

  /** `s` without its trailing whitespace. */
  function TrimEnd(s: string): (r: string)
    ensures |r| <= |s| && r == s[..|r|]
    ensures AllWhitespace(s[|r|..])
    ensures r != [] ==> !IsWhitespace(r[|r| - 1])
    decreases |s|
  {
    if s != [] && IsWhitespace(s[|s| - 1]) then
      var r := TrimEnd(s[..|s| - 1]);
      assert s[|r|..] == s[..|s| - 1][|r|..] + [s[|s| - 1]];
      r
    else s
  }

  /**
   * Kotlin's `String.trim()`: the middle slice of `s` that starts at its first
   * non-whitespace character (offset k), with only whitespace cut off either end.
   */
  function Trim(s: string): (r: string)
    ensures TrimmedSlice(s, |s| - |TrimStart(s)|, r)
    ensures |TrimStart(s)| > 0 ==> !IsWhitespace(s[|s| - |TrimStart(s)|])
    ensures r == [] <==> AllWhitespace(s)
  {
    var t := TrimStart(s);
    var r := TrimEnd(t);
    TrimSlice(s, t, r);
    r
  }

  /** `r` is `s[k..k + |r|]`, outside it only whitespace, and `r` neither starts nor ends with whitespace. */
  ghost predicate TrimmedSlice(s: string, k: int, r: string)
  {
    && 0 <= k && k + |r| <= |s|
    && r == s[k..k + |r|]
    && AllWhitespace(s[..k]) && AllWhitespace(s[k + |r|..])
    && (r != [] ==> !IsWhitespace(r[0]) && !IsWhitespace(r[|r| - 1]))
  }

  lemma AllWhitespaceConcat(a: string, b: string)
    requires AllWhitespace(a) && AllWhitespace(b)
    ensures AllWhitespace(a + b)
  {
    forall i | 0 <= i < |a + b| ensures IsWhitespace((a + b)[i]) {
      if i < |a| {
        assert (a + b)[i] == a[i];
      } else {
        assert (a + b)[i] == b[i - |a|];
      }
    }
  }

  /** What TrimStart and TrimEnd promise, composed. */
  lemma TrimSlice(s: string, t: string, r: string)
    requires |t| <= |s| && t == s[|s| - |t|..] && AllWhitespace(s[..|s| - |t|])
    requires t != [] ==> !IsWhitespace(t[0])
    requires |r| <= |t| && r == t[..|r|] && AllWhitespace(t[|r|..])
    requires r != [] ==> !IsWhitespace(r[|r| - 1])
    ensures TrimmedSlice(s, |s| - |t|, r)
    ensures |t| > 0 ==> !IsWhitespace(s[|s| - |t|])
    ensures r == [] <==> AllWhitespace(s)
  {
    var k := |s| - |t|;
    assert |t| > 0 ==> s[k] == t[0];
    assert s[k + |r|..] == t[|r|..];
    if r == [] {
      assert s == s[..k] + t[|r|..];
      AllWhitespaceConcat(s[..k], t[|r|..]);
    } else {
      assert r[0] == t[0];
      assert s[k] == r[0];
    }
  }

  /** Trimming twice is trimming once. */
  lemma TrimIdempotent(s: string)
    ensures Trim(Trim(s)) == Trim(s)
  {
    var r := Trim(s);
    if r != [] {
      assert TrimStart(r) == r;
      assert TrimEnd(r) == r;
    }
  }

  /**
   * The `when` of ensurePermissionsAndConnect: a device already selected (by a
   * scan or an earlier connect) wins; otherwise the trimmed text field, unless
   * it is empty, in which case there is no device and nothing is connected.
   */
  function ChooseDeviceId(selected: Option<string>, fieldText: string): (id: Option<string>)
    ensures selected.Some? ==> id == selected
    ensures selected.None? ==> (id.None? <==> AllWhitespace(fieldText))
    ensures selected.None? && id.Some? ==> id.value == Trim(fieldText)
  {
    var idFromField := Trim(fieldText);
    if selected.Some? then selected
    else if idFromField != [] then Some(idFromField)
    else None
  }

  /** A heart-rate broadcast and the clock reading when its handler runs. */
  datatype Broadcast = Broadcast(deviceId: string, hr: int, receivedMs: int)

  /** The subscription passes a broadcast on only when it comes from the target device. */
  predicate Accepts(targetId: string, b: Broadcast)
  {
    b.deviceId == targetId
  }

  function SampleOf(b: Broadcast): Sample
  {
    Sample(b.hr, b.receivedMs)
  }

  /**
   * The calls of onHeartRate a stream of broadcasts produces: exactly the
   * broadcasts of the target device, in order (order and repetitions are
   * pinned down by DeliveredAppend and DeliveredOne).
   */
  function Delivered(targetId: string, bs: seq<Broadcast>): (xs: seq<Sample>)
    ensures |xs| <= |bs|
    ensures forall x :: x in xs ==> exists b :: b in bs && Accepts(targetId, b) && x == SampleOf(b)
    ensures forall b :: b in bs && Accepts(targetId, b) ==> SampleOf(b) in xs
    decreases |bs|
  {
    if bs == [] then []
    else
      var rest := Delivered(targetId, bs[1..]);
      assert forall b :: b in bs[1..] ==> b in bs;
      if Accepts(targetId, bs[0]) then [SampleOf(bs[0])] + rest else rest
  }

  /** Filtering a stream piecewise is filtering it whole: order and repetitions are kept. */
  lemma {:induction false} DeliveredAppend(targetId: string, a: seq<Broadcast>, b: seq<Broadcast>)
    ensures Delivered(targetId, a + b) == Delivered(targetId, a) + Delivered(targetId, b)
    decreases |a|
  {
    if a != [] {
      assert (a + b)[1..] == a[1..] + b;
      DeliveredAppend(targetId, a[1..], b);
    } else {
      assert a + b == b;
    }
  }

  /** A single broadcast is delivered as its own sample exactly when it comes from the target. */
  lemma DeliveredOne(targetId: string, b: Broadcast)
    ensures Delivered(targetId, [b]) == if Accepts(targetId, b) then [SampleOf(b)] else []
  {
    assert [b][1..] == [];
  }

  /**
   * The aggregator after the broadcast subscription that
   * ensurePermissionsAndConnect sets up has seen each broadcast in turn.
   */
  function HandleBroadcasts(s: SessionState, targetId: string, bs: seq<Broadcast>): SessionState
    decreases |bs|
  {
    if bs == [] then s
    else
      var s1 := if Accepts(targetId, bs[0]) then Ingest(s, SampleOf(bs[0])) else s;
      HandleBroadcasts(s1, targetId, bs[1..])
  }

  /** Broadcasts from other devices leave no trace: the result is that of the target's readings alone. */
  lemma {:induction false} OnlyTargetReachesAggregator(s: SessionState, targetId: string, bs: seq<Broadcast>)
    ensures HandleBroadcasts(s, targetId, bs) == Replay(s, Delivered(targetId, bs))
    decreases |bs|
  {
    if bs != [] {
      var s1 := if Accepts(targetId, bs[0]) then Ingest(s, SampleOf(bs[0])) else s;
      OnlyTargetReachesAggregator(s1, targetId, bs[1..]);
      if Accepts(targetId, bs[0]) {
        var xs := Delivered(targetId, bs);
        assert xs[0] == SampleOf(bs[0]) && xs[1..] == Delivered(targetId, bs[1..]);
      }
    }
  }
}
