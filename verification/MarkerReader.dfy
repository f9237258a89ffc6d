/** The restart path of the marker reader (next_marker, read_restart_marker, jpeg_resync_to_restart of jdmarker.c) and
    process_restart of the entropy decoders, on a source that may suspend. */
module MarkerReader {
  import opened BitSeq
  import opened ByteStream
  import opened BitStream
  import opened BitReader
  import opened ScanCoding

  /** The marker that comes next behind pos, and where reading goes on behind it. */
  ghost predicate MarkerFrom(data: seq<Byte>, pos: nat, marker: nat, next: nat)
    requires pos <= |data|
  {
    StreamAt(data, pos).marker == marker && StreamAt(data, pos).next == next
  }

  /** Skipping a data byte, or a stuffed pair, does not change which marker comes next. */
  lemma SkipData(data: seq<Byte>, pos: nat)
    requires pos < |data|
    ensures data[pos] != 0xFF ==>
      StreamAt(data, pos + 1).marker == StreamAt(data, pos).marker && StreamAt(data, pos + 1).next == StreamAt(data, pos).next
    ensures data[pos] == 0xFF && SkipFF(data, pos + 1) < |data| && data[SkipFF(data, pos + 1)] == 0 ==>
      && StreamAt(data, SkipFF(data, pos + 1) + 1).marker == StreamAt(data, pos).marker
      && StreamAt(data, SkipFF(data, pos + 1) + 1).next == StreamAt(data, pos).next
    ensures data[pos] == 0xFF && SkipFF(data, pos + 1) < |data| && data[SkipFF(data, pos + 1)] != 0 ==>
      MarkerFrom(data, pos, data[SkipFF(data, pos + 1)], SkipFF(data, pos + 1) + 1)
    ensures data[pos] == 0xFF && SkipFF(data, pos + 1) == |data| ==> StreamAt(data, pos).marker == 0
  {
  }

  lemma NoMoreData(data: seq<Byte>)
    ensures StreamAt(data, |data|).marker == 0
  {
  }

  /** next_marker: find the next marker; on suspension what was skipped so far is skipped for good, and the same
      marker will be found later. */
  method NextMarker(data: seq<Byte>, limit: nat, start: nat) returns (pos: nat, marker: nat, ok: bool)
    requires start <= limit <= |data|
    ensures start <= pos <= limit
    ensures ok ==> start < pos && marker != 0 && marker != 0xFF && marker < 256 && MarkerFrom(data, start, marker, pos)
    ensures !ok ==> MarkerFrom(data, start, StreamAt(data, pos).marker, StreamAt(data, pos).next)
    ensures limit == |data| && StreamAt(data, start).marker != 0 ==> ok
  {
    hide StreamAt;
    pos, marker, ok := start, 0, false;
    NoMoreData(data);
    while true
      invariant start <= pos <= limit
      invariant StreamAt(data, start).marker == StreamAt(data, pos).marker && StreamAt(data, start).next == StreamAt(data, pos).next
      decreases limit - pos
    {
      while pos < limit && data[pos] != 0xFF
        invariant start <= pos <= limit
        invariant StreamAt(data, start).marker == StreamAt(data, pos).marker
        invariant StreamAt(data, start).next == StreamAt(data, pos).next
      {
        SkipData(data, pos);
        pos := pos + 1;
      }
      if pos == limit {
        return;
      }
      SkipData(data, pos);
      var p := pos + 1;
      while p < limit && data[p] == 0xFF
        invariant pos < p <= limit
        invariant SkipFF(data, pos + 1) == SkipFF(data, p)
      {
        p := p + 1;
      }
      if p == limit {
        return;
      }
      assert SkipFF(data, p) == p;
      if data[p] != 0 {
        marker, pos, ok := data[p], p + 1, true;
        return;
      }
      pos := p + 1;
    }
  }

  /** Reading on after a restart depends only on the marker that is next, and on where reading goes on behind it. */
  lemma {:induction false} ResyncSame(data: seq<Byte>, a: Stream, b: Stream, num: nat)
    requires a.next <= |data| && b.next <= |data|
    requires a.marker == b.marker && a.next == b.next && a.starved == b.starved
    ensures Resync(data, a, num) == Resync(data, b, num) && Restart(data, a, num) == Restart(data, b, num)
  {
    hide StreamAt, ResyncAction;
    assert a.(bits := []) == b.(bits := []);
  }

  /** Behind a marker that is to be skipped it does not matter where exactly reading goes on. */
  lemma SkipOnSame(data: seq<Byte>, marker: nat, starved: bool, p: nat, q: nat, num: nat)
    requires p <= |data| && q <= |data| && MarkerFrom(data, p, StreamAt(data, q).marker, StreamAt(data, q).next)
    requires marker != 0 && ResyncAction(marker, num) == SkipOn
    ensures Resync(data, Stream([], starved, marker, p), num) == Resync(data, Stream([], starved, marker, q), num)
  {
    hide StreamAt;
  }

  /** A restart gets over wrong markers without running out of data. */
  ghost predicate Recovers(data: seq<Byte>, st: Stream, num: nat)
    requires st.next <= |data|
    decreases |data| - st.next
  {
    st.marker != 0 &&
      (st.marker == RST0 + num || ResyncAction(st.marker, num) != SkipOn ||
        (StreamAt(data, st.next).marker != 0 && Recovers(data, StreamAt(data, st.next), num)))
  }

  /** The stream that a position and an unread marker stand for, no bits being buffered. */
  ghost function Ahead(data: seq<Byte>, pos: nat, unread: nat, starved: bool): (s: Stream)
    requires pos <= |data|
    ensures s.next <= |data|
  {
    if unread != 0 then Stream([], starved, unread, pos) else StreamAt(data, pos)
  }

  /** jpeg_resync_to_restart. */
  method ResyncToRestart(data: seq<Byte>, limit: nat, start: nat, found: nat, num: nat, ghost starved: bool)
    returns (pos: nat, unread: nat, ok: bool)
    requires start <= limit <= |data| && 0 < found < 0xFF && num < 8 && found != RST0 + num
    ensures start <= pos <= limit && unread < 0xFF
    ensures ok ==> Ahead(data, pos, unread, starved) == Resync(data, Stream([], starved, found, start), num)
    ensures !ok ==> unread != 0 && unread != RST0 + num
    ensures !ok ==> Resync(data, Stream([], starved, unread, pos), num) == Resync(data, Stream([], starved, found, start), num)
    ensures limit == |data| && Recovers(data, Stream([], starved, found, start), num) ==> ok
  {
    hide StreamAt;
    pos, unread, ok := start, found, true;
    while true
      invariant start <= pos <= limit && 0 < unread < 0xFF
      invariant Resync(data, Stream([], starved, unread, pos), num) == Resync(data, Stream([], starved, found, start), num)
      invariant Recovers(data, Stream([], starved, found, start), num) ==>
        unread == RST0 + num || Recovers(data, Stream([], starved, unread, pos), num)
      decreases limit - pos
    {
      match ResyncAction(unread, num)
      case Discard =>
        unread := 0;
        return;
      case Leave =>
        return;
      case SkipOn =>
        var p, m, found1 := NextMarker(data, limit, pos);
        if !found1 {
          SkipOnSame(data, unread, starved, pos, p, num);
          pos, ok := p, false;
          return;
        }
        pos, unread := p, m;
    }
  }

  /** read_restart_marker: swallow the expected marker, or recover from a wrong one. */
  method ReadRestartMarker(data: seq<Byte>, limit: nat, start: nat, unread0: nat, num: nat, ghost starved: bool)
    returns (pos: nat, unread: nat, num': nat, ok: bool)
    requires start <= limit <= |data| && unread0 < 0xFF && num < 8 && (starved ==> unread0 != 0)
    ensures start <= pos <= limit && unread < 0xFF && num' < 8
    ensures ok ==> Ahead(data, pos, unread, starved) == Restart(data, Ahead(data, start, unread0, starved), num)
    ensures num' == if ok then (num + 1) % 8 else num
    ensures !ok ==> (unread == 0 ==> unread0 == 0)
    ensures !ok ==> Restart(data, Ahead(data, pos, unread, starved), num) == Restart(data, Ahead(data, start, unread0, starved), num)
    ensures limit == |data| && Recovers(data, Ahead(data, start, unread0, starved), num) ==> ok
  {
    hide StreamAt, Resync, Recovers;
    pos, unread, num' := start, unread0, num;
    if unread == 0 {
      RecoversFrom(data, start, starved, num);
      pos, unread, ok := NextMarker(data, limit, pos);
      if !ok {
        unread := 0;
        NotStarved(data, pos);
        ResyncSame(data, StreamAt(data, start), StreamAt(data, pos), num);
        return;
      }
      ResyncSame(data, StreamAt(data, start), Stream([], starved, unread, pos), num);
    }
    if unread == RST0 + num {
      unread, ok := 0, true;
    } else {
      pos, unread, ok := ResyncToRestart(data, limit, pos, unread, num, starved);
      if !ok {
        return;
      }
    }
    num' := (num + 1) % 8;
  }

  /** Without an unread marker, the next one decides. */
  lemma RecoversFrom(data: seq<Byte>, start: nat, starved: bool, num: nat)
    requires start <= |data|
    ensures var s := StreamAt(data, start);
      Recovers(data, s, num) ==> s.marker != 0 && Recovers(data, Stream([], starved, s.marker, s.next), num)
    ensures !StreamAt(data, start).starved
  {
    hide StreamAt;
    NotStarved(data, start);
  }

  lemma NotStarved(data: seq<Byte>, start: nat)
    requires start <= |data|
    ensures !StreamAt(data, start).starved
  {
  }

  /** process_restart as far as the reader is concerned: drop the buffered bits and get past the marker; the out-of-data
      flag is reset unless a marker was left unread. */
  method ProcessRestart(data: seq<Byte>, limit: nat, r: ReadState, num: nat) returns (r': ReadState, num': nat, ok: bool)
    requires Valid(data, r) && r.pos <= limit <= |data| && num < 8
    ensures Valid(data, r') && r'.pos <= limit && num' < 8
    ensures num' == if ok then (num + 1) % 8 else num
    ensures ok ==> View(data, r') == Restart(data, View(data, r), num)
    ensures !ok ==> Restart(data, View(data, r'), num) == Restart(data, View(data, r), num)
    ensures limit == |data| && Recovers(data, View(data, r), num) ==> ok
  {
    hide StreamAt, Resync, Recovers, Restart;
    r' := r.(bitsLeft := 0);
    NoBits(data, r');
    ghost var a := Ahead(data, r.pos, r.unreadMarker, r.insufficient);
    SameAhead(data, r, num);
    var pos, unread;
    pos, unread, num', ok := ReadRestartMarker(data, limit, r'.pos, r'.unreadMarker, num, r.insufficient);
    r' := r'.(pos := pos, unreadMarker := unread);
    if ok && unread == 0 {
      r' := r'.(insufficient := false);
    }
    NoBits(data, r');
  }

  /** With an empty bit buffer the view is what comes next. */
  lemma NoBits(data: seq<Byte>, r: ReadState)
    requires r.pos <= |data| && r.bitsLeft == 0
    ensures Buffered(r) == [] && Repeat(false, 0) == []
    ensures (r.insufficient ==> r.unreadMarker != 0) ==> View(data, r) == Ahead(data, r.pos, r.unreadMarker, r.insufficient)
  {
    hide StreamAt;
    if r.unreadMarker == 0 {
      PrependConcat([], [], StreamAt(data, r.pos));
    }
  }

  /** Buffered bits do not matter to a restart. */
  lemma SameAhead(data: seq<Byte>, r: ReadState, num: nat)
    requires Valid(data, r)
    ensures Restart(data, Ahead(data, r.pos, r.unreadMarker, r.insufficient), num) == Restart(data, View(data, r), num)
    ensures Recovers(data, View(data, r), num) ==> Recovers(data, Ahead(data, r.pos, r.unreadMarker, r.insufficient), num)
  {
    hide StreamAt, Resync, Restart;
    NotStarved(data, r.pos);
    ResyncSame(data, Ahead(data, r.pos, r.unreadMarker, r.insufficient), View(data, r), num);
  }
}
