/** The refresh gate: the sleep time and image timestamp announced in the
    response headers, and the 4-byte slot at the start of the
    microcontroller's non-volatile memory that remembers the timestamp of
    the image on the display. */
module RefreshGate {
  import opened Errors
  import opened Bytes

  /** The `sleep` and `timestamp` response headers, each either present
      and accepted by `int(...)` or not. */
  datatype Headers = Headers(sleep: Option<int>, timestamp: Option<int>)

  /** How long to sleep after this cycle, in seconds, and the timestamp of
      the image the server offers. */
  datatype Schedule = Schedule(sleepSeconds: int, timestamp: int)

  /** The minutes of the `sleep` header in seconds and the `timestamp`
      header; when either one is missing or not an integer, the defaults
      of one hour and timestamp 0 replace both. */
  function ReadSchedule(h: Headers): (s: Schedule)
    ensures s.sleepSeconds % 60 == 0
    ensures h.sleep.Some? && h.timestamp.Some? ==>
              s.sleepSeconds / 60 == h.sleep.value && s.timestamp == h.timestamp.value
    ensures h.sleep.None? || h.timestamp.None? ==> s == Schedule(3600, 0)
  {
    if h.sleep.Some? && h.timestamp.Some? then Schedule(h.sleep.value * 60, h.timestamp.value)
    else Schedule(60 * 60, 0)
  }

  /** `int.from_bytes(microcontroller.nvm[0:4], "little")`. */
  function StoredStamp(nvm: seq<byte>): (t: nat)
    requires |nvm| >= 4
    ensures t < Pow2(32)
  {
    LeValue(nvm[..4])
  }

  /** The image is decoded and shown only when the offered timestamp differs
      from the stored one. */
  function IsNewImage(s: Schedule, nvm: seq<byte>): (isNew: bool)
    requires |nvm| >= 4
    ensures !isNew <==> 0 <= s.timestamp < Pow2(32) && nvm[..4] == LeEncode(s.timestamp, 4)
  {
    LeEncodeDecode(nvm[..4]);
    if 0 <= s.timestamp < Pow2(32) then
      LeDecodeEncode(s.timestamp, 4);
      s.timestamp != StoredStamp(nvm)
    else s.timestamp != StoredStamp(nvm)
  }

  /** `microcontroller.nvm[0:4] = timestamp.to_bytes(4, "little")`: the
      conversion raises OverflowError for a negative timestamp or one of 2^32
      or more, before anything is written; otherwise the four bytes are
      copied into the slot and the rest of the memory is left alone. */
  method Persist(nvm: array<byte>, stamp: int) returns (r: Outcome)
    requires nvm.Length >= 4
    modifies nvm
    ensures r.Pass? <==> 0 <= stamp < Pow2(32)
    ensures r.Pass? ==> nvm[..4] == LeEncode(stamp, 4) && nvm[4..] == old(nvm[4..])
    ensures r.Pass? ==> StoredStamp(nvm[..]) == stamp
    ensures r.Fail? ==> r.failure == TimestampOutOfRange && nvm[..] == old(nvm[..])
  {
    var bytes := ToBytes(stamp, 4);
    if bytes.None? {
      return Fail(TimestampOutOfRange);
    }
    ghost var rest := nvm[4..];
    for k := 0 to 4
      invariant nvm[..k] == bytes.value[..k]
      invariant nvm[4..] == rest
    {
      nvm[k] := bytes.value[k];
    }
    assert nvm[..4] == bytes.value;
    assert nvm[..][..4] == nvm[..4];
    return Pass;
  }

  /** What the gate decides for a stored slot: a repeated timestamp leaves
      the slot as it is; a new one in range is what the slot holds after the
      write, and the slot then reports it as not new. */
  lemma PersistThenSkip(nvm: seq<byte>, stamp: int)
    requires |nvm| >= 4 && 0 <= stamp < Pow2(32)
    ensures var after := LeEncode(stamp, 4) + nvm[4..];
      && |after| == |nvm|
      && StoredStamp(after) == stamp
      && !IsNewImage(Schedule(0, stamp), after)
  {
    var after := LeEncode(stamp, 4) + nvm[4..];
    assert after[..4] == LeEncode(stamp, 4);
    LeDecodeEncode(stamp, 4);
  }
}
