/**
 * The string event the version module publishes: its 32-bit fields, the
 * fixed-size text buffer filled by memset and strncpy, and the outgoing
 * event storage it is added to.
 */
module EventData {

  /** An unsigned 32-bit integer (MRH_Uint32). */
  type Uint32 = x: int | 0 <= x < 0x1_0000_0000

  const UINT32_MAX: Uint32 := 0xFFFF_FFFF
  const NUL: char := '\0'

  /**
   * The event kinds (MRH_Uint32 codes in the event library). The two kinds the
   * module names get their own constructors; `OtherType(code)` stands for one
   * of the remaining kinds, with `code` telling those apart, so no `OtherType`
   * value is ever MRH_EVENT_SAY_STRING_U or MRH_EVENT_SAY_STRING_S.
   */
  datatype EventType = SayStringU | SayStringS | OtherType(code: Uint32)

  /** An event as created from the say-string data: its kind, its id and the whole text buffer. */
  datatype Event = Event(kind: EventType, id: Uint32, text: seq<char>)

  /** What a reader of a C string sees in `s`: everything before the first NUL. */
  function CString(s: string): (c: string)
    ensures c <= s
    ensures NUL !in c
    ensures |c| < |s| ==> s[|c|] == NUL
  {
    if s == [] || s[0] == NUL then [] else [s[0]] + CString(s[1..])
  }

  /** Every NUL-free prefix of `s` that is followed by a NUL or the end is its C string. */
  lemma CStringOfTerminated(s: string, c: string)
    requires c <= s && NUL !in c
    requires |c| < |s| ==> s[|c|] == NUL
    ensures CString(s) == c
  {
  }

  /** A run of `n` NUL characters. */
  function Nuls(n: nat): (z: string)
    ensures |z| == n && forall i :: 0 <= i < n ==> z[i] == NUL
  {
    seq(n, _ => NUL)
  }

  /**
   * The `n` characters strncpy(dst, src, n) writes: the C string of `src`,
   * cut to `n` characters, then NUL up to `n`.
   */
  function Strncpy(src: string, n: nat): (r: string)
    ensures |r| == n
    ensures var c := CString(src);
      forall i :: 0 <= i < n ==> r[i] == if i < |c| then src[i] else NUL
  {
    var c := CString(src);
    var k := if |c| < n then |c| else n;
    c[..k] + Nuls(n - k)
  }

  /**
   * The whole buffer of `size` characters after memset(buf, NUL, size) and
   * strncpy(buf, src, max).
   */
  function BufferImage(src: string, max: nat, size: nat): (r: string)
    requires max <= size
    ensures |r| == size
    ensures forall i :: 0 <= i < size ==> r[i] == if i < max then Strncpy(src, max)[i] else NUL
  {
    Strncpy(src, max) + Nuls(size - max)
  }

  /** The buffer is NUL from position `max` on, so it is always terminated when max < size. */
  lemma BufferTerminated(src: string, max: nat, size: nat)
    requires max < size
    ensures forall i :: max <= i < size ==> BufferImage(src, max, size)[i] == NUL
  {
  }

  /** The receiver of the buffer reads back the payload's C string, cut to `max` characters. */
  lemma BufferReadBack(src: string, max: nat, size: nat)
    requires max < size
    ensures var c := CString(src);
      CString(BufferImage(src, max, size)) == c[..if |c| < max then |c| else max]
  {
    var c := CString(src);
    var k := if |c| < max then |c| else max;
    var b := BufferImage(src, max, size);
    assert c[..k] <= b by {
      forall i | 0 <= i < k ensures b[i] == c[..k][i] {
        assert b[i] == Strncpy(src, max)[i];
      }
    }
    assert b[k] == NUL;
    CStringOfTerminated(b, c[..k]);
  }

  /** A NUL-free payload that fits arrives whole. */
  lemma BufferRoundTrip(src: string, max: nat, size: nat)
    requires max < size && |src| <= max && NUL !in src
    ensures CString(BufferImage(src, max, size)) == src
  {
    CStringOfTerminated(src, src);
    BufferReadBack(src, max, size);
  }

  /** memset(buf, c, n): the first `n` characters become `c`, the rest is untouched. */
  method Memset(buf: array<char>, c: char, n: nat)
    requires n <= buf.Length
    modifies buf
    ensures forall i :: 0 <= i < n ==> buf[i] == c
    ensures forall i :: n <= i < buf.Length ==> buf[i] == old(buf[i])
  {
    var i := 0;
    while i < n
      invariant 0 <= i <= n
      invariant forall j :: 0 <= j < i ==> buf[j] == c
      invariant forall j :: i <= j < buf.Length ==> buf[j] == old(buf[j])
    {
      buf[i] := c;
      i := i + 1;
    }
  }

  /** strncpy(dst, src, n): the first `n` characters become Strncpy(src, n), the rest is untouched. */
  method StrNCopy(dst: array<char>, src: string, n: nat)
    requires n <= dst.Length
    modifies dst
    ensures forall i :: 0 <= i < n ==> dst[i] == Strncpy(src, n)[i]
    ensures forall i :: n <= i < dst.Length ==> dst[i] == old(dst[i])
  {
    ghost var c := CString(src);
    var i := 0;
    while i < n && i < |src| && src[i] != NUL
      invariant 0 <= i <= n && i <= |src| && i <= |c|
      invariant forall j :: 0 <= j < i ==> dst[j] == src[j]
      invariant forall j :: i <= j < dst.Length ==> dst[j] == old(dst[j])
    {
      dst[i] := src[i];
      i := i + 1;
    }
    assert i < n ==> i == |c|;
    while i < n
      invariant 0 <= i <= n
      invariant forall j :: 0 <= j < i ==> dst[j] == Strncpy(src, n)[j]
      invariant forall j :: i <= j < dst.Length ==> dst[j] == old(dst[j])
    {
      dst[i] := NUL;
      i := i + 1;
    }
  }

  /** The outgoing event storage: the events queued for the host, in order. */
  class EventStorage {
    var events: seq<Event>

    constructor ()
      ensures events == []
    {
      events := [];
    }

    /**
     * Add an event. `accepted` is the storage's own verdict, which the model
     * does not compute: a rejected event is not stored.
     */
    method Add(e: Event, accepted: bool) returns (ok: bool)
      modifies this
      ensures ok == accepted
      ensures events == if ok then old(events) + [e] else old(events)
    {
      ok := accepted;
      if ok {
        events := events + [e];
      }
    }
  }
}
