/**
 * Extending a listing page from the server, chunk by chunk
 * (investigate_locg_view_modes.py, `_extend_list`).
 */
module ListPagination {
  import opened Common

  /**
   * What one call meets: the page's extend-now flag, whether the reply is a 200 with
   * a non-blank list, and how many rows the server is willing to send.
   */
  datatype Reply = Reply(extendNow: bool, usable: bool, size: nat)

  /** The rows a server holding `rows` sends from an offset. */
  function Chunk<T>(rows: seq<T>, offset: nat, size: nat): seq<T> {
    if offset >= |rows| then []
    else if offset + size > |rows| then rows[offset..]
    else rows[offset..offset + size]
  }

  function Total(replies: seq<Reply>): nat {
    if replies == [] then 0 else Total(replies[..|replies| - 1]) + replies[|replies| - 1].size
  }

  /** Rows on the page after some calls: all that were asked for, as far as the server has them. */
  function Held(available: nat, start: nat, replies: seq<Reply>, calls: nat): nat
    requires calls <= |replies|
  {
    var asked := start + Total(replies[..calls]);
    if asked < available then asked else available
  }

  /** After this many calls there is no further one. */
  predicate StopsAt(available: nat, start: nat, replies: seq<Reply>, maxCalls: nat, calls: nat)
    requires calls <= maxCalls <= |replies|
  {
    var held := Held(available, start, replies, calls);
    || calls == maxCalls
    || !replies[calls].usable
    || (calls > 0 && (|| held == Held(available, start, replies, calls - 1)
                      || held >= 230
                      || (!replies[calls].extendNow && held >= 200)))
  }

  lemma HeldMore(available: nat, start: nat, replies: seq<Reply>, calls: nat)
    requires calls < |replies|
    ensures Held(available, start, replies, calls) <= Held(available, start, replies, calls + 1)
    ensures Held(available, start, replies, calls + 1)
            == var more := Held(available, start, replies, calls) + replies[calls].size;
               if more < available then more else available
  {
    assert replies[..calls + 1][..calls] == replies[..calls];
  }

  /**
   * The loop, run against a server that returns rows from the requested offset. If
   * the page starts as a beginning of the server's list and its offset attribute
   * (absent, or equal to the number of rows) agrees, the page stays one, with
   * nothing dropped or repeated, and holds what the calls asked for. The calls end at
   * the first moment one of the loop's reasons to stop holds.
   */
  method ExtendList<T>(rows: seq<T>, page0: seq<T>, attribute0: Option<nat>, maxCalls: nat, replies: seq<Reply>)
    returns (page: seq<T>, attribute: Option<nat>, calls: nat)
    requires |replies| >= maxCalls
    requires page0 <= rows && (attribute0.Some? ==> attribute0.value == |page0|)
    ensures page0 <= page <= rows && calls <= maxCalls
    ensures |page| == Held(|rows|, |page0|, replies, calls)
    ensures StopsAt(|rows|, |page0|, replies, maxCalls, calls)
    ensures forall c :: 0 <= c < calls ==> !StopsAt(|rows|, |page0|, replies, maxCalls, c)
    ensures attribute == if |page| > |page0| then Some(|page|) else attribute0
  {
    page, attribute, calls := page0, attribute0, 0;
    var prev := |page|;
    var offset := if attribute.Some? then attribute.value else prev;
    while calls < maxCalls
      invariant 0 <= calls <= maxCalls
      invariant page0 <= page <= rows && prev == |page| && offset == |page|
      invariant |page| == Held(|rows|, |page0|, replies, calls)
      invariant attribute == if |page| > |page0| then Some(|page|) else attribute0
      invariant calls > 0 ==> |page| > Held(|rows|, |page0|, replies, calls - 1) && |page| < 230
      invariant forall c :: 0 <= c < calls ==> !StopsAt(|rows|, |page0|, replies, maxCalls, c)
      decreases maxCalls - calls
    {
      var reply := replies[calls];
      assert StopsAt(|rows|, |page0|, replies, maxCalls, calls)
             <==> !reply.usable || (calls > 0 && !reply.extendNow && prev >= 200);
      HeldMore(|rows|, |page0|, replies, calls);
      if calls > 0 && !reply.extendNow && prev >= 200 {
        break;
      }
      if !reply.usable {
        break;
      }
      page := page + Chunk(rows, offset, reply.size);
      calls := calls + 1;
      var newCount := |page|;
      if newCount <= prev {
        break;
      }
      prev := newCount;
      offset := newCount;
      attribute := Some(newCount);
      if prev >= 230 {
        break;
      }
    }
  }

  /** While the calls go on, each one has brought new rows. */
  lemma {:induction false} EveryGoingCallGrows(available: nat, start: nat, replies: seq<Reply>, maxCalls: nat, calls: nat)
    requires calls <= maxCalls <= |replies|
    requires forall c :: 0 <= c <= calls ==> !StopsAt(available, start, replies, maxCalls, c)
    ensures Held(available, start, replies, calls) >= Held(available, start, replies, 0) + calls
    ensures calls > 0 ==> Held(available, start, replies, calls) < 230
    decreases calls
  {
    assert !StopsAt(available, start, replies, maxCalls, calls);
    if calls > 0 {
      EveryGoingCallGrows(available, start, replies, maxCalls, calls - 1);
      HeldMore(available, start, replies, calls - 1);
    }
  }

  /** So the rows on the page bound the calls made. */
  lemma CallsAreBounded(available: nat, start: nat, replies: seq<Reply>, maxCalls: nat, calls: nat)
    requires calls <= maxCalls <= |replies|
    requires forall c :: 0 <= c < calls ==> !StopsAt(available, start, replies, maxCalls, c)
    ensures Held(available, start, replies, calls) >= Held(available, start, replies, 0) + calls - 1
  {
    if calls > 0 {
      EveryGoingCallGrows(available, start, replies, maxCalls, calls - 1);
      HeldMore(available, start, replies, calls - 1);
    }
  }

  /**
   * The agreement of offset and page is needed: over a list without repeated rows,
   * a chunk that brings rows extends a beginning of the list to a longer one exactly
   * when it was requested at the page's own length.
   */
  lemma ChunkExtendsIff<T>(rows: seq<T>, page: seq<T>, offset: nat, size: nat)
    requires Distinct(rows) && page <= rows && offset < |rows| && size > 0
    ensures page + Chunk(rows, offset, size) <= rows <==> offset == |page|
  {
    var chunk := Chunk(rows, offset, size);
    assert chunk[0] == rows[offset];
    var longer := page + chunk;
    assert longer[|page|] == rows[offset];
    if longer <= rows {
      assert rows[|page|] == longer[|page|];
    }
  }
}
