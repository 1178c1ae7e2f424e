/** Display, Displays and one pass of the reconciliation loop. The AirPlay
    client all displays share is modelled by the log of commands sent to it. */
module Displays {
  import opened Wrappers
  import opened Sequences
  import Media

  /** A call on the shared AirPlay client. */
  datatype Command = SendImage(path: string) | SendVideo(url: string) | Browse

  /** The placeholder image `Display#default` sends. */
  const OffAirImage := "assets/offair.jpg"

  /** The fixed host and port videos are served from. */
  const VideoBase := "http://192.168.1.127:8080/"

  /** The URL send_video casts: the base followed by the path's last segment;
      a path without one interpolates Ruby's nil, which is the empty string. */
  function VideoUrl(path: string): (r: string)
    ensures |r| >= |VideoBase| && r[..|VideoBase|] == VideoBase
    ensures '/' !in r[|VideoBase|..]
    ensures r[|VideoBase|..] == [] <==> forall k :: 0 <= k < |path| ==> path[k] == '/'
  {
    VideoBase + match Media.FileName(path) case Some(name) => name case None => ""
  }

  /** A file of a catalog directory is cast by its entry name alone: the
      directory part of the path never reaches the URL. */
  lemma VideoUrlOfEntry(dir: string, name: string)
    requires name != [] && '/' !in name
    requires dir == [] || dir[|dir| - 1] == '/'
    ensures VideoUrl(dir + name) == VideoBase + name
  {
    Media.FileNameOfEntry(dir, name);
  }

  /** The shared client: everything that was sent to it, in order. */
  class Client
  {
    var sent: seq<Command>

    constructor()
      ensures sent == []
    {
      sent := [];
    }

    method Send(c: Command)
      modifies this
      ensures sent == old(sent) + [c]
    {
      sent := sent + [c];
    }
  }

  /** The three flags of a display (`@off`, `@playing_video`, `@idle`); a flag
      never set is nil, which reads as false. */
  datatype DisplayState = DisplayState(off: bool, playingVideo: bool, idle: bool)

  const Fresh := DisplayState(false, false, false)

  /** What send_video does to the flags: playing from now on, whether or not the
      display is on; idle only when the display is off. */
  function AfterSendVideo(st: DisplayState): (r: DisplayState)
    ensures r.playingVideo && r.off == st.off && r.idle == st.off
  {
    st.(playingVideo := true, idle := st.off)
  }

  /** What a display issues when asked to send an image: nothing while off. */
  function ImageCommands(st: DisplayState, path: string): seq<Command>
  {
    if st.off then [] else [SendImage(path)]
  }

  function VideoCommands(st: DisplayState, path: string): seq<Command>
  {
    if st.off then [] else [SendVideo(VideoUrl(path))]
  }

  function KeepPlayingCommands(st: DisplayState): seq<Command>
  {
    if st.off then [] else [Browse]
  }

  /** What one display contributes to a tick: `default` when not playing,
      `keep_playing` when playing. */
  function TickCommands(st: DisplayState): seq<Command>
  {
    if !st.playingVideo then ImageCommands(st, OffAirImage) else KeepPlayingCommands(st)
  }

  /** What a tick over displays in these states issues, display by display. */
  function TickAll(states: seq<DisplayState>): seq<Command>
  {
    if states == [] then []
    else TickAll(states[..|states| - 1]) + TickCommands(states[|states| - 1])
  }

  predicate IsOffState(st: DisplayState)
  {
    st.off
  }

  /** A tick issues one command for every display that is on, in registry
      order and for no other: the placeholder for one that is not playing,
      a browse for one that is. */
  lemma {:induction false} TickAllOrder(states: seq<DisplayState>)
    ensures var on := Reject(states, IsOffState);
      && |TickAll(states)| == |on|
      && forall k :: 0 <= k < |on| ==>
           TickAll(states)[k] == if on[k].playingVideo then Browse else SendImage(OffAirImage)
  {
    if states != [] {
      var init := states[..|states| - 1];
      TickAllOrder(init);
    }
  }

  class Display
  {
    var address: string
    var off: bool
    var playingVideo: bool
    var idle: bool

    function State(): DisplayState
      reads this
    {
      DisplayState(off, playingVideo, idle)
    }

    /** Display.new: on and not playing. The address is kept but never used. */
    constructor(address: string)
      ensures this.address == address && State() == Fresh
    {
      this.address := address;
      off, playingVideo, idle := false, false, false;
    }

    /** off!: only the power flag changes. */
    method Off()
      modifies this
      ensures State() == old(State()).(off := true)
      ensures address == old(address)
    {
      off := true;
    }

    /** on!: only the power flag changes. */
    method On()
      modifies this
      ensures State() == old(State()).(off := false)
      ensures address == old(address)
    {
      off := false;
    }

    /** off?: `@off == true`, so a display never switched off is on. */
    predicate IsOff()
      reads this
      ensures IsOff() <==> State().off
    {
      off
    }

    /** playing_video?: `@playing_video == true`; only send_video sets it. */
    predicate IsPlayingVideo()
      reads this
      ensures IsPlayingVideo() <==> State().playingVideo
    {
      playingVideo
    }

    /** send_image: sent only while on. */
    method SendImage(path: string, client: Client)
      modifies client
      ensures client.sent == old(client.sent) + ImageCommands(State(), path)
    {
      if !IsOff() {
        client.Send(Command.SendImage(path));
      }
    }

    /** default: the off-air placeholder. */
    method Default(client: Client)
      modifies client
      ensures client.sent == old(client.sent) + ImageCommands(State(), OffAirImage)
    {
      SendImage(OffAirImage, client);
    }

    /** keep_playing: a browse request while on; its answer is not used. */
    method KeepPlaying(client: Client)
      modifies client
      ensures client.sent == old(client.sent) + KeepPlayingCommands(State())
    {
      if !IsOff() {
        client.Send(Browse);
      }
    }

    /** send_video: marks the display as playing before looking at the power
        flag, so a display that is off ends up playing too, with nothing sent
        and only the idle flag set. */
    method SendVideo(path: string, client: Client)
      modifies this, client
      ensures State() == AfterSendVideo(old(State()))
      ensures address == old(address)
      ensures client.sent == old(client.sent) + VideoCommands(old(State()), path)
    {
      idle := false;
      playingVideo := true;
      if !IsOff() {
        client.Send(Command.SendVideo(VideoUrl(path)));
        return;
      }
      idle := true;
    }
  }

  /** Displays: an insertion-ordered hash from name to display, kept as the
      list of its entries. */
  class Registry
  {
    var entries: seq<(string, Display)>

    /** Names are keys, and every entry has a display of its own. */
    ghost predicate Valid()
      reads this
    {
      forall i, j :: 0 <= i < j < |entries| ==> entries[i].0 != entries[j].0 && entries[i].1 != entries[j].1
    }

    function Names(): seq<string>
      reads this
    {
      seq(|entries|, k requires 0 <= k < |entries| reads this => entries[k].0)
    }

    function Members(): set<Display>
      reads this
    {
      set k | 0 <= k < |entries| :: entries[k].1
    }

    /** The state of every display, in registry order. */
    function States(): seq<DisplayState>
      reads this, Members()
    {
      seq(|entries|, k requires 0 <= k < |entries| reads this, Members() => entries[k].1.State())
    }

    constructor()
      ensures entries == [] && Valid()
    {
      entries := [];
    }

    /** Displays.add: a fresh display under the name; a name already present
        keeps its place and gets the new display. */
    method Add(name: string, address: string) returns (d: Display)
      requires Valid()
      modifies this
      ensures Valid() && fresh(d)
      ensures d.address == address && d.State() == Fresh
      ensures match IndexOf(old(Names()), name)
        case Some(i) => entries == old(entries)[i := (name, d)]
        case None => entries == old(entries) + [(name, d)]
    {
      d := new Display(address);
      match IndexOf(Names(), name)
      case Some(i) =>
        entries := entries[i := (name, d)];
      case None =>
        assert forall k :: 0 <= k < |entries| ==> entries[k].0 == Names()[k];
        entries := entries + [(name, d)];
    }

    /** Opencast.run_loop_iteration: every display, in registry order, gets
        `default` when not playing and `keep_playing` when playing. No
        display changes. */
    method Tick(client: Client)
      modifies client
      ensures client.sent == old(client.sent) + TickAll(States())
      ensures States() == old(States())
    {
      ghost var sts := States();
      var i := 0;
      while i < |entries|
        invariant 0 <= i <= |entries|
        invariant States() == sts
        invariant client.sent == old(client.sent) + TickAll(sts[..i])
      {
        assert sts[..i + 1][..i] == sts[..i];
        var d := entries[i].1;
        assert d.State() == sts[i];
        if !d.IsPlayingVideo() {
          d.Default(client);
        }
        if d.IsPlayingVideo() {
          d.KeepPlaying(client);
        }
        assert client.sent == old(client.sent) + TickAll(sts[..i]) + TickCommands(sts[i]);
        i := i + 1;
      }
      assert sts[..|entries|] == sts;
    }

    /** Media#play: send_video on the first registered display; with no
        display, Ruby raises on `nil[1]`. */
    method Play(path: string, client: Client) returns (r: Outcome)
      requires Valid()
      modifies client, if entries == [] then {} else {entries[0].1}
      ensures entries == old(entries)
      ensures old(entries) == [] ==> r == Fail(NoDisplays) && client.sent == old(client.sent)
      ensures old(entries) != [] ==>
        && r == Pass
        && States() == old(States())[0 := AfterSendVideo(old(States())[0])]
        && client.sent == old(client.sent) + VideoCommands(old(States())[0], path)
    {
      if entries == [] {
        return Fail(NoDisplays);
      }
      ghost var before := States();
      var d := entries[0].1;
      d.SendVideo(path, client);
      r := Pass;
      ghost var after := before[0 := AfterSendVideo(before[0])];
      forall k | 0 <= k < |entries|
        ensures States()[k] == after[k]
      {
        if k > 0 {
          assert entries[k].1 != d;
        }
      }
      assert States() == after;
    }
  }
}
