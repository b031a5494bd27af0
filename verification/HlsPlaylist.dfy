/**
 The live playlist (section 4.3.3.2 of RFC 8216).  One playlist, one sequence
 number and one clock serve all channels, because they are `static`.  Only the
 list of the last segments belongs to a channel, and it is empty again when the
 channel comes back online.
 */
module HlsPlaylist {

  /** The playlist file: the number in its head, and the numbers of the segments it lists. */
  datatype Playlist = Playlist(mediaSequence: int, entries: seq<nat>)

  const TOTAL_TS_URLS: nat := 4

  /** The numbers from `first` to `last`. */
  function Consecutive(first: nat, last: nat): (s: seq<nat>)
    ensures |s| == if first <= last then last - first + 1 else 0
    ensures forall i | 0 <= i < |s| :: s[i] == first + i
    decreases last + 1 - first
  {
    if first > last then [] else [first] + Consecutive(first + 1, last)
  }

  /** One more segment behind, and one less in front. */
  lemma WindowSlides(first: nat, last: nat)
    requires first <= last
    ensures Consecutive(first, last) + [last + 1] == Consecutive(first, last + 1)
    ensures Consecutive(first, last)[1..] == Consecutive(first + 1, last)
  {
    hide Consecutive;
  }

  /** What a player may rely on: at most three consecutive segments up to the current one, the first one in the head. */
  ghost predicate WellFormed(p: Playlist, current: nat) {
    && 1 <= |p.entries| <= 3
    && (forall i | 0 <= i < |p.entries| :: p.entries[i] == p.mediaSequence + i)
    && p.entries[|p.entries| - 1] == current
  }

  /** The first segment of the window that ends with the current one. */
  function WindowStart(current: nat): nat {
    if current <= 3 then 1 else current - 2
  }

  /** The window with the next segment, before and after its first one is dropped. */
  lemma NewSegment(current: nat)
    requires current >= 2
    ensures var w := Consecutive(WindowStart(current - 1), current - 1) + [current];
            && (current <= 3 ==> w == Consecutive(WindowStart(current), current) && |w| < TOTAL_TS_URLS)
            && (current > 3 ==> w[1..] == Consecutive(WindowStart(current), current) && |w| == TOTAL_TS_URLS)
  {
    hide Consecutive;
    WindowSlides(WindowStart(current - 1), current - 1);
    WindowSlides(WindowStart(current - 1), current);
  }

  // ------------------------------------------------------------------ the steps

  /** The number in the head of a playlist written now. */
  function HeadNumber(current: nat): int {
    if current > 3 then current - TOTAL_TS_URLS + 2 else 1
  }

  /** add_ts_url_2_m3u8_file, for one channel's list. */
  function Added(urls: seq<nat>, p: Playlist, current: nat): (seq<nat>, Playlist) {
    if urls == [] then (urls, p)
    else if |urls| < TOTAL_TS_URLS then (urls, p.(entries := p.entries + [urls[|urls| - 1]]))
    else (urls[1..], Playlist(HeadNumber(current), urls[1..]))
  }

  /**
   The statics of receive_stream_cb, and the channels that are online with
   their lists of segments.  `theFirst`: no FLV header has been read yet.
   `initFirst`: there has been no rotation yet.
   */
  datatype State = State(theFirst: bool, initFirst: bool, current: nat, playlist: Playlist, channels: map<string, seq<nat>>)

  /** The server as it starts. */
  function Nobody(): State {
    State(true, true, 0, Playlist(0, []), map[])
  }

  /** The first rotation creates the playlist, and lists what the channel has. */
  function Started(s: State, c: string): (r: State)
    requires c in s.channels
    ensures c in r.channels && r.theFirst == s.theFirst && !r.initFirst && r.current == s.current
  {
    var (urls, p) := Added(s.channels[c], Playlist(HeadNumber(s.current), []), s.current);
    s.(initFirst := false, playlist := p, channels := s.channels[c := urls])
  }

  /** The rotation that one channel's stream makes when the target duration has gone by. */
  function Rotated(s: State, c: string): (r: State)
    requires c in s.channels
    ensures c in r.channels && r.theFirst == s.theFirst && !r.initFirst && r.current == s.current + 1
  {
    var s1 := if s.initFirst then Started(s, c) else s;
    var n := s1.current + 1;
    var (urls, p) := Added(s1.channels[c] + [n], s1.playlist, n);
    s1.(current := n, playlist := p, channels := s1.channels[c := urls])
  }

  datatype Event = Online(c: string) | HeaderRead(c: string) | Rotation(c: string) | Offline(c: string)

  function Step(s: State, e: Event): State {
    match e
    case Online(c) => if c in s.channels then s else s.(channels := s.channels[c := []])
    case HeaderRead(c) =>
      if c in s.channels && s.theFirst then
        s.(theFirst := false, current := 1, channels := s.channels[c := s.channels[c] + [1]])
      else s
    case Rotation(c) => if c in s.channels && !s.theFirst then Rotated(s, c) else s
    case Offline(c) => s.(channels := s.channels - {c})
  }

  function Run(s: State, es: seq<Event>): State
    decreases |es|
  {
    if es == [] then s else Step(Run(s, es[..|es| - 1]), es[|es| - 1])
  }

  // ------------------------------------------------------------------ in place

  class HlsServer {
    var theFirst: bool
    var initFirst: bool
    var mediaCurSequence: nat
    var playlist: Playlist
    var channelsPool: map<string, seq<nat>>

    function View(): State
      reads this
    {
      State(theFirst, initFirst, mediaCurSequence, playlist, channelsPool)
    }

    constructor ()
      ensures View() == Nobody()
    {
      theFirst, initFirst, mediaCurSequence, playlist, channelsPool := true, true, 0, Playlist(0, []), map[];
    }

    /** A request with status ONLINE: a channel that is not known gets a new, empty list. */
    method GoOnline(c: string)
      modifies this
      ensures View() == Step(old(View()), Online(c))
    {
      if c !in channelsPool {
        channelsPool := channelsPool[c := []];
      }
    }

    /** A request with status OFFLINE. */
    method GoOffline(c: string)
      modifies this
      ensures View() == Step(old(View()), Offline(c))
    {
      channelsPool := channelsPool - {c};
    }

    /** The end of the FLV header of a stream; only the first one is treated as a header. */
    method ReadHeader(c: string)
      requires c in channelsPool
      modifies this
      ensures View() == Step(old(View()), HeaderRead(c))
    {
      if theFirst {
        theFirst := false;
        mediaCurSequence := 1;
        channelsPool := channelsPool[c := channelsPool[c] + [mediaCurSequence]];
      }
    }

    /** create_m3u8_file: the head of a new playlist. */
    method CreateM3u8File() returns (p: Playlist)
      ensures p == Playlist(HeadNumber(mediaCurSequence), [])
    {
      p := Playlist(if mediaCurSequence > 3 then mediaCurSequence - TOTAL_TS_URLS + 2 else 1, []);
    }

    /** add_ts_url_2_m3u8_file: the newest segment is appended, or the whole playlist is written anew. */
    method AddTsUrl(c: string)
      requires c in channelsPool
      modifies this`channelsPool, this`playlist
      ensures var (urls, p) := Added(old(channelsPool[c]), old(playlist), mediaCurSequence);
              channelsPool == old(channelsPool)[c := urls] && playlist == p
    {
      var urls := channelsPool[c];
      if urls == [] {
        return;
      }
      if |urls| < TOTAL_TS_URLS {
        playlist := playlist.(entries := playlist.entries + [urls[|urls| - 1]]);
      } else {
        var rewritten := CreateM3u8File();
        urls := urls[1..];
        var i := 0;
        while i < |urls|
          invariant 0 <= i <= |urls|
          invariant rewritten == Playlist(HeadNumber(mediaCurSequence), urls[..i])
        {
          rewritten := rewritten.(entries := rewritten.entries + [urls[i]]);
          i := i + 1;
        }
        playlist := rewritten;
      }
      channelsPool := channelsPool[c := urls];
    }

    /** The first rotation creates the playlist. */
    method Start(c: string)
      requires c in channelsPool
      modifies this
      ensures View() == Started(old(View()), c)
    {
      hide Added;
      initFirst := false;
      playlist := CreateM3u8File();
      AddTsUrl(c);
    }

    /** The rotation in receive_stream_cb. */
    method Rotate(c: string)
      requires c in channelsPool && !theFirst
      modifies this
      ensures View() == Step(old(View()), Rotation(c))
      ensures Consistent(old(View())) ==> (WellFormed(playlist, mediaCurSequence) <==> InStep(old(View()), c))
    {
      hide Added, Consistent, InStep, WellFormed, Started;
      if Consistent(View()) {
        RotationExactly(View(), c);
      }
      if initFirst {
        Start(c);
      }
      mediaCurSequence := mediaCurSequence + 1;
      channelsPool := channelsPool[c := channelsPool[c] + [mediaCurSequence]];
      AddTsUrl(c);
      assert View() == Rotated(old(View()), c);
    }
  }

  // ------------------------------------------------- what every run of events keeps

  /** A channel lists at most three segments, in their order, out of those made so far. */
  ghost predicate Ordered(urls: seq<nat>, current: nat) {
    && |urls| < TOTAL_TS_URLS
    && (forall i | 0 <= i < |urls| :: 1 <= urls[i] <= current)
    && (forall i, j | 0 <= i < j < |urls| :: urls[i] < urls[j])
  }

  /** No segment is in the lists of two channels. */
  ghost predicate Apart(channels: map<string, seq<nat>>) {
    forall c, d, x | c in channels && d in channels && c != d && x in channels[c] :: x !in channels[d]
  }

  /** After the first rotation: up to three segments nothing was dropped; then three or more are listed. */
  ghost predicate Grown(p: Playlist, current: nat) {
    if current <= 3 then p == Playlist(1, Consecutive(1, current)) || p == Playlist(1, Consecutive(2, current))
    else |p.entries| >= 3
  }

  ghost predicate Consistent(s: State) {
    && (forall c | c in s.channels :: Ordered(s.channels[c], s.current))
    && Apart(s.channels)
    && (if s.theFirst then s.initFirst && s.current == 0
        else if s.initFirst then s.current == 1
        else s.current >= 2 && Grown(s.playlist, s.current))
  }

  lemma {:induction false} RunKeeps(es: seq<Event>)
    ensures Consistent(Run(Nobody(), es))
    decreases |es|
  {
    hide Consistent, Step;
    if es == [] {
      assert Consistent(Nobody()) by { NobodyConsistent(); }
    } else {
      RunKeeps(es[..|es| - 1]);
      StepKeeps(Run(Nobody(), es[..|es| - 1]), es[|es| - 1]);
    }
  }

  /** As many numbers in order, as large is the last one. */
  lemma OrderedIsShort(urls: seq<nat>, current: nat)
    requires Ordered(urls, current)
    ensures |urls| <= current
  {
    assert urls != [] ==> 1 <= urls[0] && urls[|urls| - 1] <= current;
    assert |urls| > 1 ==> urls[0] < urls[1];
    assert |urls| > 2 ==> urls[1] < urls[2];
  }

  lemma NobodyConsistent()
    ensures Consistent(Nobody())
  {
  }

  lemma StepKeeps(s: State, e: Event)
    requires Consistent(s)
    ensures Consistent(Step(s, e))
  {
    hide Rotated, Grown;
    match e
    case Rotation(c) =>
      if c in s.channels && !s.theFirst {
        RotatedKeeps(s, c);
      }
    case HeaderRead(c) =>
      if c in s.channels && s.theFirst {
        forall d | d in s.channels ensures s.channels[d] == [] {
          OrderedIsShort(s.channels[d], 0);
        }
      }
    case _ =>
  }

  /** What one rotation does, whether it is the first one or not. */
  lemma RotatedIs(s: State, c: string)
    requires Consistent(s) && c in s.channels && !s.theFirst
    ensures var n, urls := s.current + 1, s.channels[c] + [s.current + 1];
            var before := if s.initFirst then Playlist(1, s.channels[c]) else s.playlist;
            Rotated(s, c) ==
            if |urls| < TOTAL_TS_URLS
            then State(false, false, n, before.(entries := before.entries + [n]), s.channels[c := urls])
            else State(false, false, n, Playlist(n - 2, urls[1..]), s.channels[c := urls[1..]])
  {
    var urls := s.channels[c];
    if s.initFirst {
      OrderedIsShort(urls, 1);
      assert |urls| == 1 ==> urls == [urls[|urls| - 1]] == [1];
      assert Started(s, c).channels == s.channels;
    } else if |urls| == 3 {
      assert urls[0] < urls[1] < urls[2] <= s.current;
    }
  }

  lemma RotatedKeeps(s: State, c: string)
    requires Consistent(s) && c in s.channels && !s.theFirst
    ensures Consistent(Rotated(s, c))
  {
    hide Rotated, Added, Grown;
    RotatedIs(s, c);
    RotatedGrown(s, c);
  }

  lemma RotatedGrown(s: State, c: string)
    requires Consistent(s) && c in s.channels && !s.theFirst
    ensures Grown(Rotated(s, c).playlist, s.current + 1)
  {
    hide Rotated, Added, Consecutive;
    RotatedIs(s, c);
    var n, urls := s.current, s.channels[c];
    if s.initFirst {
      OrderedIsShort(urls, 1);
      assert urls == Consecutive(1, 1) || urls == Consecutive(2, 1);
      WindowSlides(1, 1);
      assert Consecutive(2, 1) + [2] == Consecutive(2, 2);
    } else {
      if |urls| == 3 {
        assert urls[0] < urls[1] < urls[2] <= n;
      }
      if n <= 3 {
        WindowSlides(1, n);
        WindowSlides(2, n);
      }
    }
  }

  // ----------------------------------------------------------- the exact condition

  /**
   When the channel that rotates leaves a playlist a player may rely on: with a
   full list, if it also made the two segments before; with less, if nothing was
   dropped yet and the first segment is listed.
   */
  predicate InStep(s: State, c: string) {
    && c in s.channels
    && var urls := s.channels[c];
       if |urls| == TOTAL_TS_URLS - 1 then urls[1..] == [s.current - 1, s.current]
       else s.current <= 2 && if s.initFirst then urls == [1] else s.playlist.entries != [] && s.playlist.entries[0] == 1
  }

  lemma RotationExactly(s: State, c: string)
    requires Consistent(s) && c in s.channels && !s.theFirst
    ensures WellFormed(Rotated(s, c).playlist, s.current + 1) <==> InStep(s, c)
  {
    hide Rotated, Consistent, InStep, WellFormed;
    assert |s.channels[c]| < TOTAL_TS_URLS by { ListIsShort(s, c); }
    if |s.channels[c]| == 3 {
      FullListExactly(s, c);
    } else if s.initFirst {
      FirstRotationExactly(s, c);
    } else {
      ShortListExactly(s, c);
    }
  }

  lemma ListIsShort(s: State, c: string)
    requires Consistent(s) && c in s.channels
    ensures |s.channels[c]| < TOTAL_TS_URLS
  {
  }

  lemma FullListExactly(s: State, c: string)
    requires Consistent(s) && c in s.channels && !s.theFirst && |s.channels[c]| == 3
    ensures WellFormed(Rotated(s, c).playlist, s.current + 1) <==> InStep(s, c)
  {
    hide Rotated, Grown;
    RotatedIs(s, c);
    var n, urls := s.current, s.channels[c];
    var p := Playlist(n - 1, [urls[1], urls[2], n + 1]);
    assert urls[1..] == [urls[1], urls[2]];
    assert Rotated(s, c).playlist == p;
    if WellFormed(p, n + 1) {
      assert p.entries[0] == n - 1 && p.entries[1] == n;
    }
  }

  lemma FirstRotationExactly(s: State, c: string)
    requires Consistent(s) && c in s.channels && !s.theFirst && s.initFirst && |s.channels[c]| < 3
    ensures WellFormed(Rotated(s, c).playlist, s.current + 1) <==> InStep(s, c)
  {
    hide Rotated, Grown;
    RotatedIs(s, c);
    OrderedIsShort(s.channels[c], 1);
    assert s.channels[c] == [] || s.channels[c] == [1];
    assert Rotated(s, c).playlist == Playlist(1, s.channels[c] + [2]);
  }

  lemma ShortListExactly(s: State, c: string)
    requires Consistent(s) && c in s.channels && !s.theFirst && !s.initFirst && |s.channels[c]| < 3
    ensures WellFormed(Rotated(s, c).playlist, s.current + 1) <==> InStep(s, c)
  {
    hide Rotated, Consecutive;
    RotatedIs(s, c);
    var n, p, q := s.current, s.playlist, Rotated(s, c).playlist;
    assert q == Playlist(p.mediaSequence, p.entries + [n + 1]);
    if n == 2 {
      assert p == Playlist(1, [1, 2]) || p == Playlist(1, [2]);
    } else if |p.entries| < 3 {
      assert p == Playlist(1, [2, 3]);
      assert q.entries[0] == 2;
    }
  }

  /** At whatever rotation of whatever run: the playlist is well formed after it exactly on the condition. */
  lemma EveryRotation(es: seq<Event>, c: string)
    ensures var s := Run(Nobody(), es);
            c in s.channels && !s.theFirst ==> (WellFormed(Step(s, Rotation(c)).playlist, s.current + 1) <==> InStep(s, c))
  {
    hide Consistent, Rotated, WellFormed, InStep, Run;
    RunKeeps(es);
    var s := Run(Nobody(), es);
    if c in s.channels && !s.theFirst {
      RotationExactly(s, c);
    }
  }

  // ------------------------------------------------------- one channel that stays

  /** The playlist lists what one channel lists, which is the window; before the first rotation, the first segment. */
  ghost predicate Leads(s: State, c: string) {
    && Consistent(s) && c in s.channels && !s.theFirst
    && s.channels[c] == Consecutive(WindowStart(s.current), s.current)
    && (!s.initFirst ==> s.playlist == Playlist(WindowStart(s.current), s.channels[c]))
  }

  /** A rotation of the channel keeps this, and what others do without rotating does not matter. */
  lemma LeaderStays(s: State, c: string, e: Event)
    requires Leads(s, c) && e != Offline(c) && (e.Rotation? ==> e.c == c)
    ensures Leads(Step(s, e), c)
    ensures e.Rotation? ==> WellFormed(Step(s, e).playlist, s.current + 1)
  {
    hide Rotated, Consistent, Consecutive;
    StepKeeps(s, e);
    if e.Rotation? {
      RotatedIs(s, c);
      assert Consistent(s);
      LeaderRotates(s, c);
    }
  }

  lemma LeaderRotates(s: State, c: string)
    requires Leads(s, c)
    ensures Leads(Rotated(s, c), c) && WellFormed(Rotated(s, c).playlist, s.current + 1)
  {
    hide Rotated, Consecutive, Grown, Apart;
    RotatedKeeps(s, c);
    RotatedIs(s, c);
    NewSegment(s.current + 1);
  }

  /**
   The first channel of a server, as long as it stays online and no other
   channel rotates: after every rotation the playlist is well formed.
   */
  lemma {:induction false} FirstChannel(c: string, es: seq<Event>)
    requires forall e | e in es :: e != Offline(c) && (e.Rotation? ==> e.c == c)
    ensures var s := Run(Nobody(), [Online(c), HeaderRead(c)] + es);
            Leads(s, c) && (!s.initFirst ==> WellFormed(s.playlist, s.current))
    decreases |es|
  {
    hide Leads, Step, WellFormed;
    var start := [Online(c), HeaderRead(c)];
    if es == [] {
      FirstHeader(c);
      assert start + es == start;
    } else {
      var front, last := es[..|es| - 1], es[|es| - 1];
      FirstChannel(c, front);
      assert (start + es)[..|start + es| - 1] == start + front && (start + es)[|start + es| - 1] == last;
      LeaderStays(Run(Nobody(), start + front), c, last);
    }
    LeaderIsWellFormed(Run(Nobody(), start + es), c);
  }

  lemma FirstHeader(c: string)
    ensures var s := Run(Nobody(), [Online(c), HeaderRead(c)]); Leads(s, c) && s.current == 1
  {
    var es := [Online(c), HeaderRead(c)];
    RunKeeps(es);
    assert es[..1] == [Online(c)] && es[..1][..0] == [];
    assert Run(Nobody(), []) == Nobody();
    assert Run(Nobody(), es[..1]) == Step(Nobody(), Online(c));
    assert Run(Nobody(), es).channels[c] == [1] == Consecutive(1, 1);
  }

  lemma LeaderIsWellFormed(s: State, c: string)
    requires Leads(s, c)
    ensures !s.initFirst ==> WellFormed(s.playlist, s.current)
  {
    hide Consecutive;
  }

  // -------------------------------------------------------- channels that come back

  /** `k` rotations in a row by one channel. */
  function Rotations(s: State, c: string, k: nat): (r: State)
    requires c in s.channels && !s.theFirst
    ensures c in r.channels && !r.theFirst && r.current == s.current + k && (k > 0 ==> !r.initFirst)
    decreases k
  {
    if k == 0 then s else Rotated(Rotations(s, c, k - 1), c)
  }

  lemma {:induction false} RotationsKeep(s: State, c: string, k: nat)
    requires Consistent(s) && c in s.channels && !s.theFirst
    ensures Consistent(Rotations(s, c, k))
    decreases k
  {
    hide Consistent, Rotated;
    if k > 0 {
      RotationsKeep(s, c, k - 1);
      RotatedKeeps(Rotations(s, c, k - 1), c);
    }
  }

  /** What a channel lists that came online with an empty list and has rotated `k` times since. */
  lemma {:induction false} BackList(s: State, c: string, k: nat)
    requires Consistent(s) && c in s.channels && !s.theFirst && s.channels[c] == []
    ensures Rotations(s, c, k).channels[c] == Consecutive(s.current + (if k <= 3 then 1 else k - 2), s.current + k)
    decreases k
  {
    hide Consistent, Rotated, Consecutive;
    if k > 0 {
      BackList(s, c, k - 1);
      RotationsKeep(s, c, k - 1);
      RotatedIs(Rotations(s, c, k - 1), c);
      var n := s.current + k - 1;
      if k > 1 {
        WindowSlides(s.current + (if k <= 4 then 1 else k - 3), n);
      }
      WindowSlides(s.current + (if k <= 3 then 1 else k - 2), n + 1);
    }
  }

  /**
   Exactly when the `k`-th rotation after coming online with an empty list
   leaves a well-formed playlist: from the fourth on; before, only while no
   more than three segments have been made and the first one is listed.
   */
  lemma BackOnlineExactly(s: State, c: string, k: nat)
    requires Consistent(s) && c in s.channels && !s.theFirst && s.channels[c] == [] && k > 0
    ensures WellFormed(Rotations(s, c, k).playlist, s.current + k) <==>
            k >= 4 || (s.current + k <= 3 && !s.initFirst && s.playlist.entries[0] == 1)
  {
    hide Consistent, Rotated, Consecutive, WellFormed;
    var r := Rotations(s, c, k - 1);
    RotationsKeep(s, c, k - 1);
    RotationExactly(r, c);
    BackList(s, c, k - 1);
    Counted(s);
    var urls, n := r.channels[c], r.current;
    if k >= 4 {
      assert urls[1..] == [n - 1, n];
    } else if k == 2 {
      RotatedIs(s, c);
    }
  }

  lemma Counted(s: State)
    requires Consistent(s) && !s.theFirst
    ensures s.current >= 1 && (!s.initFirst ==> s.current >= 2 && s.playlist.entries != [])
  {
  }

  lemma OneMore(s: State, es: seq<Event>, e: Event)
    ensures Run(s, es + [e]) == Step(Run(s, es), e)
  {
    assert (es + [e])[..|es|] == es;
  }

  lemma ThreeSegments(s: State, c: string)
    requires Leads(s, c) && !s.initFirst && s.current == 3
    ensures s.playlist == Playlist(1, [1, 2, 3])
    ensures Rotated(s.(channels := (s.channels - {c})[c := []]), c).playlist == Playlist(1, [1, 2, 3, 4])
  {
    assert Consecutive(1, 3) == [1, 2, 3];
  }

  /** Going offline after three segments and coming back: the next rotation lists a fourth. */
  lemma BackOnlineBreaks(c: string)
    ensures var s := Run(Nobody(), [Online(c), HeaderRead(c), Rotation(c), Rotation(c), Offline(c), Online(c), Rotation(c)]);
            s.playlist == Playlist(1, [1, 2, 3, 4]) && s.current == 4 && !WellFormed(s.playlist, 4)
  {
    hide Run;
    var start := [Online(c), HeaderRead(c)];
    var es := start + [Rotation(c)] + [Rotation(c)];
    FirstHeader(c);
    OneMore(Nobody(), start, Rotation(c));
    LeaderStays(Run(Nobody(), start), c, Rotation(c));
    OneMore(Nobody(), start + [Rotation(c)], Rotation(c));
    LeaderStays(Run(Nobody(), start + [Rotation(c)]), c, Rotation(c));
    ThreeSegments(Run(Nobody(), es), c);
    OneMore(Nobody(), es, Offline(c));
    OneMore(Nobody(), es + [Offline(c)], Online(c));
    OneMore(Nobody(), es + [Offline(c)] + [Online(c)], Rotation(c));
    assert es + [Offline(c)] + [Online(c)] + [Rotation(c)]
        == [Online(c), HeaderRead(c), Rotation(c), Rotation(c), Offline(c), Online(c), Rotation(c)];
  }

  /** A list of at least `j` segments, up to three, whose last ones are the last two made. */
  ghost predicate EndsAt(urls: seq<nat>, current: nat, j: nat) {
    && j <= |urls|
    && (j >= 1 ==> urls[|urls| - 1] == current)
    && (j >= 2 ==> urls[|urls| - 2] == current - 1)
  }

  lemma {:induction false} LastListed(s: State, c: string, k: nat)
    requires Consistent(s) && c in s.channels && !s.theFirst
    ensures EndsAt(Rotations(s, c, k).channels[c], s.current + k, if k < 3 then k else 3)
    decreases k
  {
    hide Consistent, Rotated;
    if k > 0 {
      LastListed(s, c, k - 1);
      RotationsKeep(s, c, k - 1);
      var r := Rotations(s, c, k - 1);
      ListIsShort(r, c);
      RotatedIs(r, c);
    }
  }

  /** Four rotations in a row by one channel mend the playlist, whatever came before. */
  lemma FourInARow(s: State, c: string, k: nat)
    requires Consistent(s) && c in s.channels && !s.theFirst && k >= 4
    ensures WellFormed(Rotations(s, c, k).playlist, s.current + k)
  {
    hide Consistent, Rotated, WellFormed;
    var r := Rotations(s, c, k - 1);
    RotationsKeep(s, c, k - 1);
    LastListed(s, c, k - 1);
    ListIsShort(r, c);
    var urls := r.channels[c];
    assert urls[1..] == [r.current - 1, r.current];
    RotationExactly(r, c);
  }

  /** Two channels that take turns: from the fourth segment on, the one that did not make the last one breaks the playlist. */
  lemma TakingTurns(s: State, c: string, d: string)
    requires Consistent(s) && c in s.channels && d in s.channels && c != d && !s.theFirst && s.current >= 2
    ensures !WellFormed(Rotated(Rotated(s, d), c).playlist, s.current + 2)
  {
    hide Rotated, WellFormed, Grown;
    var r := Rotated(s, d);
    RotatedKeeps(s, d);
    RotatedIs(s, d);
    RotationExactly(r, c);
    var mine, other := r.channels[c], r.channels[d];
    assert other[|other| - 1] == r.current;
    if |mine| == 3 {
      assert mine[1..][1] == mine[2] && mine[2] in mine;
    }
  }
}
