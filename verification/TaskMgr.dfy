/** The block downloader's task manager (seele/download/taskMgr.go): several peers are asked
    for headers and blocks, and the blocks are handed over for writing in height order. Every
    method is one critical section; the peers and the writer interleave freely between them. */
module TaskMgr {
  import opened Basics
  import opened Blocks
  import opened ChainStore

  type Peer = string
  const NOBODY: Peer := ""

  const MAX_BLOCKS_WAITING: nat := 1024
  const MAX_HEADER_FETCH: nat := 256
  const MAX_BLOCK_FETCH: nat := 128

  datatype Status = Idle | Downloading | WaitProcessing | Processed

  datatype MasterHead = MasterHead(header: Header, block: Option<Header>, peer: Peer, status: Status)

  /** What a peer has announced. */
  datatype PeerHeads = PeerHeads(headers: map<nat, Header>, maxNo: nat)

  datatype Delivery = Accepted | MasterHeadersNotMatch | HeadInfoNotFound | Panicked

  /** Headers with consecutive heights; the master's replies have to be. */
  predicate Consecutive(headers: seq<Header>) {
    headers != [] && forall i :: 0 <= i < |headers| ==> headers[i].height == headers[0].height + i
  }

  predicate Within(headers: seq<Header>, from: nat, to: nat) {
    forall i :: 0 <= i < |headers| ==> from <= headers[i].height <= to
  }

  /** Headers filed by height on top of those in `m`. */
  function Filed(m: map<nat, Header>, headers: seq<Header>): map<nat, Header>
    decreases |headers|
  {
    if headers == [] then m
    else
      var last := headers[|headers| - 1];
      Filed(m, headers[..|headers| - 1])[last.height := last]
  }

  /** The last header of a height, if there is one. */
  predicate LastOf(headers: seq<Header>, n: nat, i: nat) {
    i < |headers| && headers[i].height == n && forall j :: i < j < |headers| ==> headers[j].height != n
  }

  predicate NoneOf(headers: seq<Header>, n: nat) {
    forall i :: 0 <= i < |headers| ==> headers[i].height != n
  }

  /** Of several headers of one height the last one stays ... */
  lemma {:induction false} FiledLast(m: map<nat, Header>, headers: seq<Header>, n: nat, i: nat)
    requires LastOf(headers, n, i)
    ensures n in Filed(m, headers) && Filed(m, headers)[n] == headers[i]
    decreases |headers|
  {
    if i < |headers| - 1 { FiledLast(m, headers[..|headers| - 1], n, i); }
  }

  /** ... and other heights are as before. */
  lemma {:induction false} FiledOther(m: map<nat, Header>, headers: seq<Header>, n: nat)
    requires NoneOf(headers, n)
    ensures n in Filed(m, headers) <==> n in m
    ensures n in m ==> Filed(m, headers)[n] == m[n]
    decreases |headers|
  {
    if headers != [] { FiledOther(m, headers[..|headers| - 1], n); }
  }

  /** Headers filed under their height, inside [from, to]. */
  ghost predicate InRange(info: PeerHeads, from: nat, to: nat) {
    && info.maxNo <= to
    && forall n :: n in info.headers ==> info.headers[n].height == n && from <= n <= info.maxNo
  }

  predicate Assigned(h: MasterHead, p: Peer) {
    h.status == Downloading && h.peer == p
  }

  /** A claimed task that its peer gives back. */
  function Released(h: MasterHead): MasterHead {
    h.(peer := NOBODY, status := Idle)
  }

  /** A task after its peer named the blocks it will send. */
  function Kept(h: MasterHead, p: Peer, blockNums: seq<nat>): MasterHead {
    if Assigned(h, p) && h.header.height !in blockNums then Released(h) else h
  }

  class TaskMgr {
    const master: Peer
    const fromNo: nat
    const toNo: nat
    var curNo: nat                        // the smallest height not handed over
    var list: seq<MasterHead>             // the master's headers from `fromNo` on
    var peers: map<Peer, PeerHeads>
    var downloadedNum: nat
    ghost var handed: seq<Header>         // the blocks handed to the writer, in order

    /** The entry at index i: its height, and a block of that height once it is downloaded. */
    ghost predicate Entry(i: nat)
      requires i < |list|
      reads this`list, this`curNo
    {
      && list[i].header.height == fromNo + i
      && (list[i].block.Some? ==> list[i].block.value.height == fromNo + i)
      && (list[i].status == WaitProcessing || list[i].status == Processed ==> list[i].block.Some?)
      && (list[i].status == Idle ==> list[i].peer == NOBODY)
      && (list[i].status == Downloading ==> list[i].peer != NOBODY)
      && (list[i].status == Processed ==> i < curNo - fromNo)
      && (i < curNo - fromNo ==> list[i].status == WaitProcessing || list[i].status == Processed)
    }

    ghost predicate PeerOk(p: Peer)
      requires p in peers
      reads this`peers
    {
      InRange(peers[p], fromNo, toNo)
    }

    ghost predicate Valid()
      reads this
    {
      && fromNo <= curNo <= fromNo + |list| <= toNo + 1
      && (forall i :: 0 <= i < |list| ==> Entry(i))
      && (forall p :: p in peers ==> PeerOk(p))
      && |handed| == curNo - fromNo
      && (forall i :: 0 <= i < |handed| ==> handed[i].height == fromNo + i)
    }

    constructor (master: Peer, from: nat, to: nat)
      requires from <= to + 1
      ensures Valid() && fromNo == from && toNo == to && this.master == master
      ensures curNo == from && handed == [] && list == []
    {
      this.master, fromNo, toNo, curNo := master, from, to, from;
      list, peers, downloadedNum, handed := [], map[], 0, [];
    }

    /** One round of run(): hand over the blocks that are ready, without a gap. */
    method HandOver() returns (start: nat, num: nat)
      requires Valid()
      modifies this`curNo, this`handed
      ensures Valid() && start == old(curNo) - fromNo && curNo == old(curNo) + num
      ensures start + num <= |list| && old(handed) <= handed
      ensures forall i :: start <= i < start + num ==>
                list[i].status == WaitProcessing && list[i].block == Some(handed[i])
      ensures start + num == |list| || list[start + num].status != WaitProcessing
    {
      start, num := curNo - fromNo, 0;
      while start + num < |list| && list[start + num].status == WaitProcessing
        modifies this`handed
        invariant start + num <= |list| && |handed| == start + num
        invariant old(handed) <= handed && forall i :: 0 <= i < |handed| ==> handed[i].height == fromNo + i
        invariant forall i :: start <= i < start + num ==>
                    list[i].status == WaitProcessing && list[i].block == Some(handed[i])
      {
        assert old(Entry(start + num));
        handed := handed + [list[start + num].block.value];
        num := num + 1;
      }
      curNo := curNo + num;
      forall i | 0 <= i < |list| ensures Entry(i) { assert old(Entry(i)); }
    }

    /** The writer has written the block at index i, some time after it was handed over. */
    method Written(i: nat) returns (block: Header)
      requires Valid() && i < curNo - fromNo
      modifies this`list
      ensures Valid() && list == old(list)[i := old(list)[i].(status := Processed)]
      ensures list[i].block == Some(block) && block.height == fromNo + i
    {
      assert Entry(i);
      block := list[i].block.value;
      list := list[i := list[i].(status := Processed)];
      forall j | 0 <= j < |list| ensures Entry(j) { assert old(Entry(j)); }
    }

    method IsDone() returns (done: bool)
      requires Valid()
      ensures done <==> |handed| == toNo + 1 - fromNo
    {
      return curNo == toNo + 1;
    }

    /** The next header request for a peer, if any: inside [curNo, toNo], and for the master
        peer right behind the headers known so far. */
    method GetReqHeaderInfo(p: Peer) returns (startNo: nat, amount: nat)
      requires Valid()
      modifies this`peers
      ensures Valid() && p in peers && old(peers).Keys + {p} == peers.Keys
      ensures forall q :: q in peers && q != p ==> peers[q] == old(peers)[q]
      ensures forall n :: n in peers[p].headers <==> p in old(peers) && n in old(peers)[p].headers && n >= curNo
      ensures forall n :: n in peers[p].headers ==> peers[p].headers[n] == old(peers)[p].headers[n]
      ensures amount > 0 ==> curNo <= startNo && startNo + amount <= toNo + 1 && amount <= MAX_HEADER_FETCH
      ensures amount > 0 ==> startNo < curNo + MAX_HEADER_FETCH
      ensures amount > 0 && p == master ==> startNo == fromNo + |list|
      ensures p != master ==> forall n :: startNo <= n < startNo + amount ==> n !in peers[p].headers
    {
      var info := if p in peers then peers[p] else PeerHeads(map[], 0);
      assert p in peers ==> PeerOk(p);
      info := info.(headers := map n | n in info.headers && n >= curNo :: info.headers[n]);
      if p != master && info.headers == map[] { info := info.(maxNo := 0); }
      SetPeer(p, info);
      if p == master {
        startNo := fromNo + |list|;
        if startNo - curNo > MAX_BLOCKS_WAITING { return 0, 0; }
      } else if info.headers == map[] {
        startNo := curNo;
      } else {
        startNo := info.maxNo + 1;
        var n :| n in info.headers;
        assert PeerOk(p);
      }
      if startNo == toNo + 1 || startNo - curNo >= MAX_HEADER_FETCH { return 0, 0; }
      amount := if MAX_HEADER_FETCH > toNo + 1 - startNo then toNo + 1 - startNo else MAX_HEADER_FETCH;
    }

    method SetPeer(p: Peer, info: PeerHeads)
      requires Valid()
      requires InRange(info, fromNo, toNo)
      modifies this`peers
      ensures Valid() && peers == old(peers)[p := info]
    {
      peers := peers[p := info];
      forall q | q in peers ensures PeerOk(q) { if q != p { assert old(PeerOk(q)); } }
    }

    /** Claim blocks for a peer: the first idle range that the peer announced with the master's
        hashes, at most 128 long and otherwise as long as it goes. */
    method GetReqBlocks(p: Peer) returns (startNo: nat, amount: nat)
      requires Valid() && p != NOBODY
      modifies this`list
      ensures Valid() && |list| == |old(list)| && amount <= MAX_BLOCK_FETCH
      ensures amount > 0 ==> curNo <= startNo && startNo + amount <= fromNo + |list| && p in peers
      ensures forall i :: 0 <= i < |list| ==>
        if startNo <= fromNo + i < startNo + amount
        then Free(old(list)[i], p) && list[i] == old(list)[i].(peer := p, status := Downloading)
        else list[i] == old(list)[i]
      ensures amount == 0 ==> forall i :: curNo - fromNo <= i < |list| ==> !Free(list[i], p)
      ensures amount > 0 ==> forall i :: curNo - fromNo <= i < startNo - fromNo ==> !Free(list[i], p)
      ensures 0 < amount < MAX_BLOCK_FETCH && startNo + amount < fromNo + |list| ==>
                !Free(list[startNo + amount - fromNo], p)
    {
      startNo, amount := 0, 0;
      if p !in peers || peers[p].headers == map[] { return; }
      var i := curNo - fromNo;
      while i < |list| && !Free(list[i], p)
        invariant curNo - fromNo <= i <= |list|
        invariant forall j :: curNo - fromNo <= j < i ==> !Free(list[j], p)
      {
        i := i + 1;
      }
      if i == |list| { return; }
      assert Entry(i);
      startNo := list[i].header.height;
      assert startNo == fromNo + i && Free(list[i], p);
      Claim(i, p);
      ghost var claimed := list;
      amount := ClaimMore(i, p);
      assert forall j :: 0 <= j < |list| && j != i ==> claimed[j] == old(list)[j];
    }

    /** An idle entry whose header is the one the peer announced. */
    predicate Free(h: MasterHead, p: Peer)
      reads this`peers
    {
      && h.status == Idle && p in peers && h.header.height in peers[p].headers
      && HashOf(peers[p].headers[h.header.height]) == HashOf(h.header)
    }

    method Claim(i: nat, p: Peer)
      requires Valid() && curNo - fromNo <= i < |list| && list[i].status == Idle && p != NOBODY
      modifies this`list
      ensures Valid() && list == old(list)[i := old(list)[i].(peer := p, status := Downloading)]
    {
      list := list[i := list[i].(peer := p, status := Downloading)];
      forall j | 0 <= j < |list| ensures Entry(j) { assert old(Entry(j)); }
    }

    /** The loop that extends a claim starting at index i. */
    method ClaimMore(i: nat, p: Peer) returns (amount: nat)
      requires Valid() && curNo - fromNo <= i < |list| && p in peers && p != NOBODY
      modifies this`list
      ensures Valid() && |list| == |old(list)| && 1 <= amount <= MAX_BLOCK_FETCH && i + amount <= |list|
      ensures forall j :: 0 <= j < |list| ==>
        if i < j < i + amount
        then Free(old(list)[j], p) && list[j] == old(list)[j].(peer := p, status := Downloading)
        else list[j] == old(list)[j]
      ensures amount < MAX_BLOCK_FETCH && i + amount < |list| ==> !Free(list[i + amount], p)
    {
      amount := 1;
      var k := i + 1;
      while k < |list|
        invariant Valid() && |list| == |old(list)| && 1 <= amount <= MAX_BLOCK_FETCH
        invariant i + amount <= k <= |list| && (amount < MAX_BLOCK_FETCH ==> k == i + amount)
        invariant forall j :: 0 <= j < |list| ==>
          if i < j < i + amount
          then Free(old(list)[j], p) && list[j] == old(list)[j].(peer := p, status := Downloading)
          else list[j] == old(list)[j]
      {
        assert Entry(k) && Entry(i);
        if list[k].status != Idle { break; }
        var no := list[i].header.height + amount;
        if no !in peers[p].headers || HashOf(peers[p].headers[no]) != HashOf(list[k].header) { break; }
        if amount < MAX_BLOCK_FETCH {
          amount := amount + 1;
          Claim(k, p);
        }
        k := k + 1;
      }
    }

    /** Headers have arrived. The master's extend the list, unless they do not join on; the source
        panics if it sends none. Those of another peer may come in any order and number. */
    method DeliverHeaderMsg(p: Peer, headers: seq<Header>) returns (r: Delivery)
      requires Valid() && Within(headers, fromNo, toNo) && (p == master && headers != [] ==> Consecutive(headers))
      modifies this`list, this`peers
      ensures Valid()
      ensures r == Panicked <==> p == master && headers == []
      ensures r == MasterHeadersNotMatch <==> p == master && headers != [] && headers[0].height != fromNo + |old(list)|
      ensures r == HeadInfoNotFound <==> r != Panicked && r != MasterHeadersNotMatch && p !in old(peers)
      ensures list == if p == master && r != MasterHeadersNotMatch then old(list) + Fresh(headers) else old(list)
      ensures r != Accepted ==> peers == old(peers)
      ensures r == Accepted ==>
                peers.Keys == old(peers).Keys && forall q :: q in peers && q != p ==> peers[q] == old(peers)[q]
      ensures r == Accepted ==> peers[p].headers == Filed(old(peers)[p].headers, headers)
    {
      if p == master {
        if headers == [] { return Panicked; }
        if fromNo + |list| != headers[0].height { return MasterHeadersNotMatch; }
        Append(headers);
      }
      if p !in peers { return HeadInfoNotFound; }
      var info := Announce(peers[p], headers);
      SetPeer(p, info);
      r := Accepted;
    }

    method Append(headers: seq<Header>)
      requires Valid() && Consecutive(headers) && Within(headers, fromNo, toNo) && headers[0].height == fromNo + |list|
      modifies this`list
      ensures Valid() && list == old(list) + Fresh(headers)
    {
      assert headers[|headers| - 1].height <= toNo;
      list := list + Fresh(headers);
      forall j | 0 <= j < |list| ensures Entry(j) { if j < |old(list)| { assert old(Entry(j)); } }
    }

    method Announce(info: PeerHeads, headers: seq<Header>) returns (r: PeerHeads)
      requires Within(headers, fromNo, toNo) && InRange(info, fromNo, toNo)
      ensures InRange(r, fromNo, toNo) && r.headers == Filed(info.headers, headers)
    {
      r := info;
      for k := 0 to |headers|
        invariant InRange(r, fromNo, toNo) && r.headers == Filed(info.headers, headers[..k])
      {
        var h := headers[k];
        assert headers[..k + 1][..k] == headers[..k];
        r := PeerHeads(r.headers[h.height := h], if r.maxNo < h.height then h.height else r.maxNo);
      }
      assert headers[..|headers|] == headers;
    }

    /** A blocks-pre message: tasks of this peer whose height it does not name are given back. */
    method DeliverBlockPreMsg(p: Peer, blockNums: seq<nat>)
      requires Valid()
      modifies this`list
      ensures Valid() && |list| == |old(list)| && list[..curNo - fromNo] == old(list)[..curNo - fromNo]
      ensures forall i :: curNo - fromNo <= i < |list| ==> list[i] == Kept(old(list)[i], p, blockNums)
    {
      var i := curNo - fromNo;
      while i < |list|
        invariant Valid() && |list| == |old(list)| && curNo - fromNo <= i <= |list|
        invariant forall j :: 0 <= j < curNo - fromNo || i <= j < |list| ==> list[j] == old(list)[j]
        invariant forall j :: curNo - fromNo <= j < i ==> list[j] == Kept(old(list)[j], p, blockNums)
      {
        if Assigned(list[i], p) && list[i].header.height !in blockNums { Release(i); }
        i := i + 1;
      }
    }

    /** A peer is gone: all its unfinished tasks are given back. */
    method OnPeerQuit(p: Peer)
      requires Valid()
      modifies this`list
      ensures Valid() && |list| == |old(list)| && list[..curNo - fromNo] == old(list)[..curNo - fromNo]
      ensures forall i :: curNo - fromNo <= i < |list| ==> list[i] == Kept(old(list)[i], p, [])
    {
      var i := curNo - fromNo;
      while i < |list|
        invariant Valid() && |list| == |old(list)| && curNo - fromNo <= i <= |list|
        invariant forall j :: 0 <= j < curNo - fromNo || i <= j < |list| ==> list[j] == old(list)[j]
        invariant forall j :: curNo - fromNo <= j < i ==> list[j] == Kept(old(list)[j], p, [])
      {
        if Assigned(list[i], p) { Release(i); }
        i := i + 1;
      }
    }

    method Release(i: nat)
      requires Valid() && curNo - fromNo <= i < |list|
      modifies this`list
      ensures Valid() && list == old(list)[i := Released(old(list)[i])]
    {
      list := list[i := Released(list[i])];
      forall j | 0 <= j < |list| ensures Entry(j) { assert old(Entry(j)); }
    }

    /** Blocks have arrived: those of heights assigned to this peer are stored, the others dropped.
        The source panics at the first block whose height is outside the list; `taken` counts the
        blocks before it. */
    method DeliverBlockMsg(p: Peer, blocks: seq<Header>) returns (taken: nat)
      requires Valid() && p != NOBODY
      modifies this`list, this`downloadedNum
      ensures Valid() && |list| == |old(list)| && taken <= |blocks|
      ensures forall k :: 0 <= k < taken ==> Known(blocks[k].height)
      ensures taken < |blocks| ==> !Known(blocks[taken].height)
      ensures forall i :: 0 <= i < |list| ==> list[i] == Delivered(old(list)[i], p, blocks[..taken])
    {
      taken := 0;
      while taken < |blocks| && Known(blocks[taken].height)
        invariant Valid() && |list| == |old(list)| && taken <= |blocks|
        invariant forall k :: 0 <= k < taken ==> Known(blocks[k].height)
        invariant forall i :: 0 <= i < |list| ==> list[i] == Delivered(old(list)[i], p, blocks[..taken])
      {
        var i := blocks[taken].height - fromNo;
        forall j | 0 <= j < |list|
          ensures Delivered(old(list)[j], p, blocks[..taken + 1]) ==
                  if j == i && list[j].peer == p then Stored(list[j], blocks[taken]) else list[j]
        {
          assert Entry(j);
          DeliveredStep(old(list)[j], p, blocks, taken);
        }
        if list[i].peer == p {
          Store(i, blocks[taken]);
          downloadedNum := downloadedNum + 1;
        }
        taken := taken + 1;
      }
    }

    /** A height that has a header in the list. */
    predicate Known(height: nat)
      reads this`list
    {
      fromNo <= height < fromNo + |list|
    }

    method Store(i: nat, b: Header)
      requires Valid() && i < |list| && b.height == fromNo + i && list[i].peer != NOBODY
      modifies this`list
      ensures Valid() && list == old(list)[i := Stored(old(list)[i], b)]
    {
      list := list[i := Stored(list[i], b)];
      forall j | 0 <= j < |list| ensures Entry(j) { assert old(Entry(j)); }
    }
  }

  function Fresh(headers: seq<Header>): seq<MasterHead> {
    seq(|headers|, i requires 0 <= i < |headers| => MasterHead(headers[i], None, NOBODY, Idle))
  }

  function Stored(h: MasterHead, b: Header): MasterHead {
    h.(block := Some(b), status := WaitProcessing)
  }

  lemma DeliveredStep(h: MasterHead, p: Peer, blocks: seq<Header>, k: nat)
    requires k < |blocks|
    ensures Delivered(h, p, blocks[..k + 1]) ==
            if h.peer == p && blocks[k].height == h.header.height then Stored(Delivered(h, p, blocks[..k]), blocks[k])
            else Delivered(h, p, blocks[..k])
  {
    assert blocks[..k + 1][..k] == blocks[..k];
  }

  /** An entry after its peer sent `blocks`: it has the last block of its own height. */
  function Delivered(h: MasterHead, p: Peer, blocks: seq<Header>): (r: MasterHead)
    ensures r.header == h.header && r.peer == h.peer
    decreases |blocks|
  {
    if blocks == [] || h.peer != p then h
    else
      var last := |blocks| - 1;
      if blocks[last].height == h.header.height then Stored(h, blocks[last])
      else Delivered(h, p, blocks[..last])
  }

  // ---------------------------------------------------------------- whole sessions

  datatype Event =
    | ReqHeaders(peer: Peer) | Headers(peer: Peer, headers: seq<Header>)
    | ReqBlocks(peer: Peer) | BlocksPre(peer: Peer, blockNums: seq<nat>) | Blocks(peer: Peer, blocks: seq<Header>)
    | Quit(peer: Peer) | Tick | BlockWritten(index: nat)

  /** What the peers are trusted with: header replies stay inside the range of the session, the
      master's have consecutive heights, and blocks have heights of known headers. */
  predicate Enabled(t: TaskMgr, e: Event)
    reads t
  {
    match e
    case Headers(p, headers) => Within(headers, t.fromNo, t.toNo) && (p == t.master ==> Consecutive(headers))
    case Blocks(p, blocks) => p != NOBODY && forall k :: 0 <= k < |blocks| ==> t.Known(blocks[k].height)
    case ReqBlocks(p) => p != NOBODY
    case BlockWritten(i) => i < t.curNo - t.fromNo
    case _ => true
  }

  /** An answer of the peer to a block request, or its end. */
  predicate By(e: Event, p: Peer) {
    (e.BlocksPre? || e.Blocks? || e.Quit?) && e.peer == p
  }

  /** A claimed task whose peer does nothing. */
  predicate Held(h: MasterHead, e: Event) {
    h.status == Downloading && !By(e, h.peer)
  }

  /** One event. Only a tick hands blocks over, and only the master's headers extend the list, so
      its reply still joins on when it arrives. A claimed task moves only through its own peer. */
  method Step(t: TaskMgr, e: Event)
    requires t.Valid() && Enabled(t, e)
    modifies t
    ensures t.Valid() && old(t.handed) <= t.handed && old(t.curNo) <= t.curNo
    ensures !e.Tick? ==> t.handed == old(t.handed)
    ensures |old(t.list)| <= |t.list|
    ensures !(e.Headers? && e.peer == t.master) ==> |t.list| == |old(t.list)|
    ensures forall i :: old(t.curNo) - t.fromNo <= i < |old(t.list)| && Held(old(t.list)[i], e) ==>
              t.list[i] == old(t.list)[i]
  {
    match e
    case ReqHeaders(p) => var _, _ := t.GetReqHeaderInfo(p);
    case Headers(p, headers) => var _ := t.DeliverHeaderMsg(p, headers);
    case ReqBlocks(p) => var _, _ := t.GetReqBlocks(p);
    case BlocksPre(p, nums) => t.DeliverBlockPreMsg(p, nums);
    case Blocks(p, blocks) => var _ := t.DeliverBlockMsg(p, blocks);
    case Quit(p) => t.OnPeerQuit(p);
    case Tick => var _, _ := t.HandOver();
    case BlockWritten(i) => var _ := t.Written(i);
  }

  /** Every interleaving: the heights handed over are fromNo, fromNo + 1, ..., each once and
      without a gap, and the session is done exactly when toNo has been handed over. */
  method Run(t: TaskMgr, events: seq<Event>) returns (done: bool)
    requires t.Valid()
    modifies t
    ensures t.Valid() && old(t.handed) <= t.handed
    ensures forall i :: 0 <= i < |t.handed| ==> t.handed[i].height == t.fromNo + i
    ensures done <==> |t.handed| == t.toNo + 1 - t.fromNo
  {
    for k := 0 to |events|
      invariant t.Valid() && old(t.handed) <= t.handed
    {
      if Enabled(t, events[k]) { Step(t, events[k]); }
    }
    done := t.IsDone();
  }

  // ---------------------------------------------------------------- whether a session can finish

  /** As long as a peer that holds a task neither answers nor quits, whatever happens otherwise, the
      session does not get past that task. */
  method RunWithout(t: TaskMgr, events: seq<Event>, ghost i: nat) returns (done: bool)
    requires t.Valid() && t.curNo - t.fromNo <= i < |t.list| && t.list[i].status == Downloading
    requires forall k :: 0 <= k < |events| ==> !By(events[k], t.list[i].peer)
    modifies t
    ensures t.Valid() && !done && t.curNo <= t.fromNo + i && i < |t.list| && t.list[i] == old(t.list)[i]
  {
    for k := 0 to |events|
      invariant t.Valid() && t.curNo <= t.fromNo + i && i < |t.list| && t.list[i] == old(t.list)[i]
    {
      if Enabled(t, events[k]) {
        Step(t, events[k]);
        assert t.Entry(i);
      }
    }
    done := t.IsDone();
  }

  /** But every session can still finish: if the master sends the missing headers, the peers that
      hold tasks send their blocks, and one more peer `q` serves the idle ones. */
  method Finish(t: TaskMgr, q: Peer) returns (done: bool)
    requires t.Valid() && q != NOBODY && q != t.master && q !in t.peers
    modifies t
    ensures t.Valid() && done
  {
    CompleteList(t);
    var i := t.curNo - t.fromNo;
    while i < |t.list|
      invariant t.Valid() && t.curNo == old(t.curNo) && t.fromNo + |t.list| == t.toNo + 1
      invariant t.curNo - t.fromNo <= i <= |t.list|
      invariant forall j :: t.curNo - t.fromNo <= j < i ==> t.list[j].status == WaitProcessing
      invariant q in t.peers ==> forall n :: n in t.peers[q].headers ==> n < t.fromNo + i
    {
      Serve(t, q, i);
      i := i + 1;
    }
    var _, _ := t.HandOver();
    done := t.IsDone();
  }

  /** The master sends all headers that are missing. */
  method CompleteList(t: TaskMgr)
    requires t.Valid()
    modifies t`list, t`peers
    ensures t.Valid() && t.fromNo + |t.list| == t.toNo + 1
    ensures forall p :: p != t.master && p !in old(t.peers) ==> p !in t.peers
  {
    var from, n := t.fromNo + |t.list|, t.toNo + 1 - t.fromNo - |t.list|;
    if n > 0 {
      var headers := seq(n, j requires 0 <= j < n => Header(EmptyHash, from + j, 1, EmptyDigest, [], 0));
      var _ := t.DeliverHeaderMsg(t.master, headers);
    }
  }

  /** Get the block of entry i: from the peer that holds it, or from `q`. */
  method Serve(t: TaskMgr, q: Peer, i: nat)
    requires t.Valid() && q != NOBODY && q != t.master && t.curNo - t.fromNo <= i < |t.list|
    requires forall j :: t.curNo - t.fromNo <= j < i ==> t.list[j].status == WaitProcessing
    requires q in t.peers ==> forall n :: n in t.peers[q].headers ==> n < t.fromNo + i
    modifies t`list, t`peers, t`downloadedNum
    ensures t.Valid() && |t.list| == |old(t.list)|
    ensures forall j :: t.curNo - t.fromNo <= j <= i ==> t.list[j].status == WaitProcessing
    ensures q in t.peers ==> forall n :: n in t.peers[q].headers ==> n < t.fromNo + i + 1
  {
    assert t.Entry(i);
    if t.list[i].status == Idle { Assign(t, q, i); }
    assert t.Entry(i);
    if t.list[i].status == Downloading {
      var block := t.list[i].header;
      assert t.Known(block.height);
      ghost var before := t.list;
      var taken := t.DeliverBlockMsg(t.list[i].peer, [block]);
      assert [block][..taken] == [block];
      forall j | t.curNo - t.fromNo <= j <= i ensures t.list[j].status == WaitProcessing {
        DeliveredOne(before[j], before[i].peer, block);
      }
    }
  }

  lemma DeliveredOne(h: MasterHead, p: Peer, block: Header)
    ensures Delivered(h, p, [block]) == if h.peer == p && block.height == h.header.height then Stored(h, block) else h
  {
    assert [block][..0] == [];
  }

  /** `q` announces the header of the idle entry i and is given that task. */
  method Assign(t: TaskMgr, q: Peer, i: nat)
    requires t.Valid() && q != NOBODY && q != t.master && t.curNo - t.fromNo <= i < |t.list| && t.list[i].status == Idle
    requires forall j :: t.curNo - t.fromNo <= j < i ==> t.list[j].status == WaitProcessing
    requires q in t.peers ==> forall n :: n in t.peers[q].headers ==> n < t.fromNo + i
    modifies t`list, t`peers
    ensures t.Valid() && |t.list| == |old(t.list)| && t.list[i].status == Downloading
    ensures forall j :: t.curNo - t.fromNo <= j < i ==> t.list[j].status == WaitProcessing
    ensures q in t.peers && forall n :: n in t.peers[q].headers ==> n < t.fromNo + i + 1
  {
    assert t.Entry(i);
    var _, _ := t.GetReqHeaderInfo(q);
    ghost var known := t.peers[q].headers;
    var header := t.list[i].header;
    var _ := t.DeliverHeaderMsg(q, [header]);
    assert [header][..0] == [] && t.peers[q].headers == known[header.height := header];
    assert t.Free(t.list[i], q);
    forall j | t.curNo - t.fromNo <= j < |t.list| && j != i ensures !t.Free(t.list[j], q) { assert t.Entry(j); }
    ghost var before := t.list;
    var startNo, amount := t.GetReqBlocks(q);
    assert t.list[i] == before[i] || amount > 0;
    assert t.Free(before[startNo - t.fromNo], q);
  }
}
