/**
 * The version module: it reads the system's name and version from the
 * "MRH" block of the version file, publishes them as one say-string event
 * tagged with a random id, and finishes once a reply carrying an id equal
 * to that one has been read or its timer has run out.
 */
module VersionModule {
  import opened Wrappers
  import opened BlockFile
  import opened EventData

  const MRH_BLOCK: string := "MRH"
  const NAME_KEY: string := "Name"
  const VERSION_KEY: string := "Version"

  /** The reply timeout the module's timer is armed with. */
  const VERSION_OUTPUT_TIMEOUT_MS: nat := 30000

  /** The largest value rand() returns (glibc's; C requires 32767 <= RAND_MAX <= INT_MAX). */
  const RAND_MAX: nat := 0x7FFF_FFFF

  /** The reasons a module exception is raised. */
  datatype ModuleError =
    | FileUnreadable      // the block file could not be opened or parsed
    | KeyMissing(key: string)  // the "MRH" block lacks a key
    | VersionNotFound     // no "MRH" block: the version string stayed empty
    | EventNotCreated     // the event library returned no event
    | EventNotSent        // the event storage refused the event
    | NoNextModule        // there is no module to switch to

  /** What an update reports to the host. */
  datatype ModuleResult = InProgress | FinishedPop

  /**
   * The correlation id drawn from one rand() value `draw`:
   * (draw % UINT32_MAX) + 1 in uint32 arithmetic.
   */
  function DrawId(draw: int): (id: Uint32)
    requires 0 <= draw <= RAND_MAX
    ensures 1 <= id <= RAND_MAX + 1
    ensures id == draw + 1
  {
    ((draw % UINT32_MAX) + 1) % 0x1_0000_0000
  }

  /**
   * The version string the first "MRH" block yields:
   * Name + ", Version " + Version + ".".
   */
  function VersionOf(blocks: seq<Block>): (r: Result<string, ModuleError>)
    ensures r == Failure(VersionNotFound) <==> FirstNamed(blocks, MRH_BLOCK) == |blocks|
    ensures r.Success? ==>
      var b := blocks[FirstNamed(blocks, MRH_BLOCK)];
      NAME_KEY in b.values && VERSION_KEY in b.values &&
      r.value == b.values[NAME_KEY] + ", Version " + b.values[VERSION_KEY] + "."
  {
    var k := FirstNamed(blocks, MRH_BLOCK);
    if k == |blocks| then Failure(VersionNotFound)
    else
      var b := blocks[k];
      if NAME_KEY !in b.values then Failure(KeyMissing(NAME_KEY))
      else if VERSION_KEY !in b.values then Failure(KeyMissing(VERSION_KEY))
      else Success(b.values[NAME_KEY] + ", Version " + b.values[VERSION_KEY] + ".")
  }

  /** The version string read from a block file; None stands for a file that could not be read. */
  function FileVersion(file: Option<seq<Block>>): (r: Result<string, ModuleError>)
    ensures file.None? ==> r == Failure(FileUnreadable)
    ensures file.Some? ==> r == VersionOf(file.value)
  {
    match file
    case None => Failure(FileUnreadable)
    case Some(blocks) => VersionOf(blocks)
  }

  /** A version string that was found is never empty: it has at least 11 characters. */
  lemma VersionLength(blocks: seq<Block>)
    requires VersionOf(blocks).Success?
    ensures |VersionOf(blocks).value| >= 11
  {
  }

  /** Reading fails with VersionNotFound exactly when no block is named "MRH". */
  lemma VersionFoundIffMrhBlock(blocks: seq<Block>)
    ensures VersionOf(blocks) == Failure(VersionNotFound)
        <==> forall i :: 0 <= i < |blocks| ==> blocks[i].name != MRH_BLOCK
  {
  }

  /** Once an "MRH" block exists, the blocks after it do not matter. */
  lemma VersionIgnoresLaterBlocks(blocks: seq<Block>, rest: seq<Block>)
    requires exists i :: 0 <= i < |blocks| && blocks[i].name == MRH_BLOCK
    ensures VersionOf(blocks + rest) == VersionOf(blocks)
  {
    FirstNamedFound(blocks, MRH_BLOCK);
    FirstNamedIgnoresSuffix(blocks, rest, MRH_BLOCK);
    var k := FirstNamed(blocks, MRH_BLOCK);
    assert (blocks + rest)[k] == blocks[k];
  }

  /** Blocks with other names in front do not change the version string. */
  lemma VersionSkipsOtherBlocks(prefix: seq<Block>, blocks: seq<Block>)
    requires forall i :: 0 <= i < |prefix| ==> prefix[i].name != MRH_BLOCK
    ensures VersionOf(prefix + blocks) == VersionOf(blocks)
  {
    FirstNamedSkipsPrefix(prefix, blocks, MRH_BLOCK);
    var k := FirstNamed(blocks, MRH_BLOCK);
    if k < |blocks| {
      assert (prefix + blocks)[|prefix| + k] == blocks[k];
    }
  }

  /** The version file of the system "MRH OS" at version 1.0.1. */
  lemma VersionOfExample()
    ensures VersionOf([Block(MRH_BLOCK, map[NAME_KEY := "MRH OS", VERSION_KEY := "1.0.1"])])
         == Success("MRH OS, Version 1.0.1.")
  {
    var b := Block(MRH_BLOCK, map[NAME_KEY := "MRH OS", VERSION_KEY := "1.0.1"]);
    assert FirstNamed([b], MRH_BLOCK) == 0;
    assert b.values[NAME_KEY] == "MRH OS" && b.values[VERSION_KEY] == "1.0.1";
    assert "MRH OS" + ", Version " + "1.0.1" + "." == "MRH OS, Version 1.0.1.";
  }

  /**
   * The example version string reaches the receiver whole through a buffer
   * of 64 characters plus terminator (example limits, not the event library's).
   */
  lemma ExampleBufferReadBack()
    ensures CString(BufferImage("MRH OS, Version 1.0.1.", 64, 65)) == "MRH OS, Version 1.0.1."
  {
    var s := "MRH OS, Version 1.0.1.";
    assert forall i :: 0 <= i < |s| ==> s[i] != NUL;
    BufferRoundTrip(s, 64, 65);
  }

  /**
   * The file part of construction: scan for the first "MRH" block, build the
   * version string from it, and raise when none was found.
   */
  method ReadVersion(file: Option<seq<Block>>) returns (res: Result<string, ModuleError>)
    ensures res == FileVersion(file)
  {
    if file.None? {
      return Failure(FileUnreadable);
    }
    var blocks := file.value;
    var version := "";
    var i := 0;
    while i < |blocks|
      invariant 0 <= i <= |blocks|
      invariant forall j :: 0 <= j < i ==> blocks[j].name != MRH_BLOCK
      invariant version == ""
    {
      if blocks[i].name == MRH_BLOCK {
        var name := GetValue(blocks[i], NAME_KEY);
        if name.None? {
          return Failure(KeyMissing(NAME_KEY));
        }
        version := name.value;
        version := version + ", Version ";
        var number := GetValue(blocks[i], VERSION_KEY);
        if number.None? {
          return Failure(KeyMissing(VERSION_KEY));
        }
        version := version + number.value;
        version := version + ".";
        break;
      }
      i := i + 1;
    }
    if |version| == 0 {
      return Failure(VersionNotFound);
    }
    res := Success(version);
  }

  /** The received id after one inbound event whose decode gave `decoded`. */
  function ReceivedAfter(received: Uint32, decoded: Option<Uint32>): (r: Uint32)
    ensures decoded.None? ==> r == received
    ensures decoded.Some? ==> r == decoded.value
  {
    match decoded
    case None => received
    case Some(id) => id
  }

  /** The received id after a series of inbound events, handled in order. */
  function Replay(received: Uint32, decoded: seq<Option<Uint32>>): (r: Uint32)
    ensures r == received || exists i :: 0 <= i < |decoded| && decoded[i] == Some(r)
    decreases |decoded|
  {
    if decoded == [] then received
    else Replay(ReceivedAfter(received, decoded[0]), decoded[1..])
  }

  /** The module itself: its timer and the two correlation ids. */
  class Version {
    const timeoutMs: nat
    var sentOutputId: Uint32
    var receivedOutputId: Uint32

    /** The member initialisers: arm the timer, draw the id, nothing received yet. */
    constructor (draw: int)
      requires 0 <= draw <= RAND_MAX
      ensures timeoutMs == VERSION_OUTPUT_TIMEOUT_MS
      ensures sentOutputId == DrawId(draw) && receivedOutputId == 0
      ensures Update(false) == InProgress
    {
      timeoutMs := VERSION_OUTPUT_TIMEOUT_MS;
      sentOutputId := DrawId(draw);
      receivedOutputId := 0;
    }

    /**
     * Hand an inbound event to the module; `decoded` is the id its decode
     * produced, None when it could not be read. Any decoded id is stored.
     */
    method HandleEvent(decoded: Option<Uint32>)
      modifies this`receivedOutputId
      ensures decoded.None? ==> receivedOutputId == old(receivedOutputId)
      ensures decoded.Some? ==> receivedOutputId == decoded.value
      ensures receivedOutputId == ReceivedAfter(old(receivedOutputId), decoded)
    {
      if decoded.Some? {
        receivedOutputId := decoded.value;
      }
    }

    /** The update: finished once the timer ran out or the ids agree. */
    function Update(timerFinished: bool): (r: ModuleResult)
      reads this
      ensures r == FinishedPop <==> timerFinished || sentOutputId == receivedOutputId
      ensures r == InProgress <==> !timerFinished && sentOutputId != receivedOutputId
    {
      if timerFinished || sentOutputId == receivedOutputId then FinishedPop else InProgress
    }

    /** The module never switches to another one. */
    function NextModule(): (r: Result<Version, ModuleError>)
      ensures r.Failure? && r.error == NoNextModule
    {
      Failure(NoNextModule)
    }

    /** Only string replies are routed to this module. */
    function CanHandleEvent(t: EventType): (r: bool)
      ensures r <==> t == SayStringS
    {
      match t
      case SayStringS => true
      case _ => false
    }
  }

  /**
   * The whole construction. `draw` is rand()'s value, `file` the parsed
   * version file, `max` and `size` the string buffer's limits, `created`
   * whether the event library produced an event and `accepted` whether the
   * storage took it.
   */
  method Create(file: Option<seq<Block>>, draw: int, storage: EventStorage,
                max: nat, size: nat, created: bool, accepted: bool)
    returns (res: Result<Version, ModuleError>)
    requires 0 <= draw <= RAND_MAX
    requires max < size
    modifies storage
    ensures var read := FileVersion(file);
      res.Success? <==> read.Success? && created && accepted
    ensures var read := FileVersion(file);
      res.Failure? ==> res.error == if read.Failure? then read.error
                                    else if !created then EventNotCreated
                                    else EventNotSent
    ensures res.Failure? ==> storage.events == old(storage.events)
    ensures res.Success? ==>
      && fresh(res.value)
      && res.value.timeoutMs == VERSION_OUTPUT_TIMEOUT_MS
      && res.value.sentOutputId == DrawId(draw)
      && res.value.receivedOutputId == 0
      && res.value.Update(false) == InProgress
      && storage.events == old(storage.events)
           + [Event(SayStringU, DrawId(draw), BufferImage(FileVersion(file).value, max, size))]
  {
    var v := new Version(draw);
    var read := ReadVersion(file);
    if read.Failure? {
      return Failure(read.error);
    }
    var version := read.value;
    var text := new char[size];
    Memset(text, NUL, size);
    StrNCopy(text, version, max);
    assert text[..] == BufferImage(version, max, size);
    if !created {
      return Failure(EventNotCreated);
    }
    var event := Event(SayStringU, v.sentOutputId, text[..]);
    var ok := storage.Add(event, accepted);
    if !ok {
      return Failure(EventNotSent);
    }
    res := Success(v);
  }

  /** Replaying two series one after the other is replaying their concatenation. */
  lemma {:induction false} ReplayAppend(received: Uint32, ds: seq<Option<Uint32>>, es: seq<Option<Uint32>>)
    ensures Replay(received, ds + es) == Replay(Replay(received, ds), es)
    decreases |ds|
  {
    if ds != [] {
      assert (ds + es)[1..] == ds[1..] + es;
      ReplayAppend(ReceivedAfter(received, ds[0]), ds[1..], es);
    } else {
      assert ds + es == es;
    }
  }

  /** Events that fail to decode leave the received id as it was. */
  lemma {:induction false} ReplayUndecoded(received: Uint32, ds: seq<Option<Uint32>>)
    requires forall i :: 0 <= i < |ds| ==> ds[i].None?
    ensures Replay(received, ds) == received
  {
    if ds != [] {
      ReplayUndecoded(received, ds[1..]);
    }
  }

  /** The last event that decodes decides the received id. */
  lemma LastDecodedWins(received: Uint32, ds: seq<Option<Uint32>>, k: nat)
    requires k < |ds| && ds[k].Some?
    requires forall i :: k < i < |ds| ==> ds[i].None?
    ensures Replay(received, ds) == ds[k].value
  {
    assert ds == ds[..k] + ([ds[k]] + ds[k + 1..]);
    ReplayAppend(received, ds[..k], [ds[k]] + ds[k + 1..]);
    var r := Replay(received, ds[..k]);
    assert ([ds[k]] + ds[k + 1..])[1..] == ds[k + 1..];
    ReplayUndecoded(ds[k].value, ds[k + 1..]);
  }

  /** Handling the same event twice in a row is the same as handling it once. */
  lemma ReplayRepeatIdempotent(received: Uint32, ds: seq<Option<Uint32>>, d: Option<Uint32>, es: seq<Option<Uint32>>)
    ensures Replay(received, ds + [d, d] + es) == Replay(received, ds + [d] + es)
  {
    ReplayAppend(received, ds + [d, d], es);
    ReplayAppend(received, ds + [d], es);
    ReplayAppend(received, ds, [d, d]);
    ReplayAppend(received, ds, [d]);
  }

  /** A reply with the sent id as the latest event makes the ids agree, whatever came before. */
  lemma MatchingReplyFinishes(sent: Uint32, received: Uint32, ds: seq<Option<Uint32>>)
    ensures Replay(received, ds + [Some(sent)]) == sent
  {
    ReplayAppend(received, ds, [Some(sent)]);
  }

  /** Replies that never carry the sent id never make the ids agree. */
  lemma {:induction false} ForeignRepliesKeepRunning(sent: Uint32, received: Uint32, ds: seq<Option<Uint32>>)
    requires received != sent
    requires forall i :: 0 <= i < |ds| ==> ds[i] != Some(sent)
    ensures Replay(received, ds) != sent
    decreases |ds|
  {
    if ds != [] {
      ForeignRepliesKeepRunning(sent, ReceivedAfter(received, ds[0]), ds[1..]);
    }
  }

  /**
   * A reply with another id that follows the matching one overwrites it:
   * the ids no longer agree, so an update in between is needed to finish.
   */
  lemma LaterForeignReplyUndoesMatch(sent: Uint32, other: Uint32)
    requires other != sent
    ensures Replay(0, [Some(sent), Some(other)]) == other
  {
    LastDecodedWins(0, [Some(sent), Some(other)], 1);
  }

  /**
   * The host handing a series of inbound events to the module, one
   * HandleEvent call each; `ds` are their decode results in order.
   */
  method HandleEvents(v: Version, ds: seq<Option<Uint32>>)
    modifies v`receivedOutputId
    ensures v.receivedOutputId == Replay(old(v.receivedOutputId), ds)
    ensures |ds| > 0 && ds[|ds| - 1] == Some(v.sentOutputId) ==> v.Update(false) == FinishedPop
    ensures old(v.receivedOutputId) != v.sentOutputId
            && (forall i :: 0 <= i < |ds| ==> ds[i] != Some(v.sentOutputId))
            ==> v.Update(false) == InProgress
  {
    ghost var start := v.receivedOutputId;
    var i := 0;
    while i < |ds|
      invariant 0 <= i <= |ds|
      invariant v.receivedOutputId == Replay(start, ds[..i])
    {
      ReplayAppend(start, ds[..i], [ds[i]]);
      assert ds[..i + 1] == ds[..i] + [ds[i]];
      v.HandleEvent(ds[i]);
      i := i + 1;
    }
    assert ds[..i] == ds;
    if |ds| > 0 && ds[|ds| - 1] == Some(v.sentOutputId) {
      assert ds == ds[..|ds| - 1] + [Some(v.sentOutputId)];
      MatchingReplyFinishes(v.sentOutputId, start, ds[..|ds| - 1]);
    }
    if start != v.sentOutputId && forall i :: 0 <= i < |ds| ==> ds[i] != Some(v.sentOutputId) {
      ForeignRepliesKeepRunning(v.sentOutputId, start, ds);
    }
  }

  /**
   * A host run against the "MRH OS" version file: construction publishes the
   * version string, a reply with another id keeps the module running, and
   * the reply carrying the sent id finishes it. The buffer limits 64 and 65
   * are example values, not the event library's constants.
   */
  method HostRun(draw: int, other: Uint32)
    returns (published: string, afterForeign: ModuleResult, afterTimeout: ModuleResult, afterMatch: ModuleResult)
    requires 0 <= draw <= RAND_MAX
    requires other != DrawId(draw)
    ensures published == "MRH OS, Version 1.0.1."
    ensures afterForeign == InProgress && afterTimeout == FinishedPop && afterMatch == FinishedPop
  {
    var storage := new EventStorage();
    var file := Some([Block(MRH_BLOCK, map[NAME_KEY := "MRH OS", VERSION_KEY := "1.0.1"])]);
    VersionOfExample();
    var res := Create(file, draw, storage, 64, 65, true, true);
    assert res.Success?;
    var v := res.value;
    assert |storage.events| == 1 && storage.events[0].id == v.sentOutputId;
    assert FileVersion(file).value == "MRH OS, Version 1.0.1.";
    ExampleBufferReadBack();
    published := CString(storage.events[0].text);
    v.HandleEvent(Some(other));
    v.HandleEvent(None);
    afterForeign := v.Update(false);
    afterTimeout := v.Update(true);
    v.HandleEvent(Some(v.sentOutputId));
    afterMatch := v.Update(false);
  }
}
