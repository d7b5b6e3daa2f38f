/**
 * The `Cmus` status-bar widget: the text it shows for a parsed status, the
 * colour it keeps in step with the playback status across polls, and the
 * `cmus-remote` command a click sends.  Commands are returned rather than
 * spawned, and the markup escaping of the shown text is a parameter.
 */
module CmusWidget {
  import opened Wrappers
  import opened Text
  import opened CmusStatus

  /** The widget's default colours, used unless the configuration overrides them. */
  const DefaultPlayColour: string := "fc5f5c"
  const DefaultNoplayColour: string := "6e7072"

  /**
   * The text shown for a parsed status.  A local file (its path starts with
   * `/`) shows `artist - title`, or the file's base name when both are empty;
   * anything else shows the stream name, or the title when there is none.
   */
  function DisplayText(info: Info): (text: string)
    ensures StartsWith(info.file, "/") && (info.artist != "" || info.title != "") ==>
      text == info.artist + " - " + info.title
    ensures StartsWith(info.file, "/") && info.artist == "" && info.title == "" ==>
      '/' !in text && |text| < |info.file| && info.file[|info.file| - |text| - 1] == '/'
      && info.file[|info.file| - |text|..] == text
    ensures !StartsWith(info.file, "/") && info.stream != "" ==> text == info.stream
    ensures !StartsWith(info.file, "/") && info.stream == "" ==> text == info.title
  {
    if StartsWith(info.file, "/") then
      var shown := info.artist + " - " + info.title;
      if shown == " - " then
        LastPieceIsSuffix(info.file, '/');
        assert info.file[0] == '/';
        LastPiece(info.file, '/')
      else shown
    else if info.stream != "" then info.stream
    else info.title
  }

  /** A local file `dir/name` without artist and title shows `name`, when `name` holds no `/`. */
  lemma BaseNameShown(info: Info, dir: string, name: string)
    requires info.file == dir + "/" + name && '/' !in name
    requires StartsWith(info.file, "/") && info.artist == "" && info.title == ""
    ensures DisplayText(info) == name
  {
    var text, file := DisplayText(info), info.file;
    assert file[|dir|] == '/' && file[|dir| + 1..] == name;
  }

  /** The other display cases on concrete statuses: artist and title, a stream name, a title alone. */
  lemma DisplayExamples()
    ensures DisplayText(Info("playing", "/music/a.mp3", "Bob", "", "Song", "")) == "Bob - Song"
    ensures DisplayText(Info("playing", "http://radio.example/x", "", "", "TrackY", "RadioX")) == "RadioX"
    ensures DisplayText(Info("playing", "http://radio.example/x", "", "", "TrackY", "")) == "TrackY"
  {
    assert !StartsWith("http://radio.example/x", "/") by {
      assert "http://radio.example/x"[0] == 'h';
    }
  }

  /** The `cmus-remote` commands the widget sends. */
  datatype Command = TogglePause | StartPlayback | NextTrack | PreviousTrack

  /** The argument vector of a command. */
  function Argv(c: Command): seq<string> {
    match c
    case TogglePause => ["cmus-remote", "-u"]
    case StartPlayback => ["cmus-remote", "-p"]
    case NextTrack => ["cmus-remote", "-n"]
    case PreviousTrack => ["cmus-remote", "-r"]
  }

  /** The mouse buttons the widget binds. */
  datatype Button = Button1 | Button4 | Button5

  class Cmus {
    /** The text colour while playing, and while not playing. */
    const playColour: string
    const noplayColour: string
    /** The playback status seen at the last poll that got an answer (`self.status`). */
    var status: string
    /** Whether the last track seen was a local file (`self.local`); `None` before the first answer. */
    var local: Option<bool>
    /** The colour of the widget's text layout (`self.layout.colour`). */
    var colour: string

    /** The colour that goes with a playback status. */
    function ColourFor(s: string): string {
      if s == "playing" then playColour else noplayColour
    }

    /** Once a status has been seen, the colour is the one that goes with it. */
    ghost predicate Valid()
      reads this
    {
      status != "" ==> colour == ColourFor(status)
    }

    /** A new widget: no status seen yet, the layout's colour as the host set it. */
    constructor (playColour: string, noplayColour: string, initialColour: string)
      ensures this.playColour == playColour && this.noplayColour == noplayColour
      ensures status == "" && local == None && colour == initialColour
      ensures Valid()
    {
      this.playColour := playColour;
      this.noplayColour := noplayColour;
      status := "";
      local := None;
      colour := initialColour;
    }

    /** A widget configured with neither colour: `add_defaults` fills in both defaults. */
    static method WithDefaults(initialColour: string) returns (w: Cmus)
      ensures fresh(w) && w.Valid()
      ensures w.playColour == DefaultPlayColour && w.noplayColour == DefaultNoplayColour
      ensures w.status == "" && w.local == None && w.colour == initialColour
    {
      w := new Cmus(DefaultPlayColour, DefaultNoplayColour, initialColour);
    }

    /**
     * `Cmus.now_playing` (and `poll`, which returns it) for the command output
     * `output`.  Without an answer nothing changes and the text is empty.  With
     * one, the status and colour change only when the status differs from the
     * last one seen, and the text is the display text of the answer; either
     * way the text is passed through `escape`.
     */
    method NowPlaying(output: string, escape: string -> string) returns (text: string)
      requires Valid()
      modifies this
      ensures Valid()
      ensures ParseStatus(output).None? ==>
        status == old(status) && colour == old(colour) && local == old(local) && text == escape("")
      ensures ParseStatus(output).Some? ==>
        var info := ParseStatus(output).value;
        status == info.status
        && colour == (if info.status != old(status) then ColourFor(info.status) else old(colour))
        && local == Some(StartsWith(info.file, "/"))
        && text == escape(DisplayText(info))
    {
      var info := GetInfo(output);
      var shown := "";
      if info.Some? {
        var s := info.value.status;
        if status != s {
          status := s;
          if status == "playing" {
            colour := playColour;
          } else {
            colour := noplayColour;
          }
        }
        local := Some(StartsWith(info.value.file, "/"));
        shown := DisplayText(info.value);
      }
      text := escape(shown);
    }

    /** `Cmus.play`: toggle pause while playing or paused, start playback when stopped, otherwise do nothing. */
    function Play(): (c: Option<Command>)
      reads this
      ensures c == Some(TogglePause) <==> status == "playing" || status == "paused"
      ensures c == Some(StartPlayback) <==> status == "stopped"
      ensures c == None <==> status != "playing" && status != "paused" && status != "stopped"
    {
      if status == "playing" || status == "paused" then Some(TogglePause)
      else if status == "stopped" then Some(StartPlayback)
      else None
    }

    /** The click bindings: button 1 plays or pauses, buttons 4 and 5 skip forward and back whatever the status. */
    function OnClick(b: Button): (c: Option<Command>)
      reads this
      ensures b == Button1 ==> c == Play()
      ensures b == Button4 ==> c == Some(NextTrack)
      ensures b == Button5 ==> c == Some(PreviousTrack)
    {
      match b
      case Button1 => Play()
      case Button4 => Some(NextTrack)
      case Button5 => Some(PreviousTrack)
    }
  }

  /** Two polls that get the same answer: the second sets the colour no more, whatever the first did. */
  method RepeatedPoll(w: Cmus, output: string, escape: string -> string) returns (first: string, second: string)
    requires w.Valid()
    modifies w
    ensures w.Valid()
    ensures first == second
    ensures ParseStatus(output).Some? ==> w.status == ParseStatus(output).value.status
    ensures w.colour == (if ParseStatus(output).Some? && ParseStatus(output).value.status != old(w.status)
                         then w.ColourFor(ParseStatus(output).value.status) else old(w.colour))
  {
    first := w.NowPlaying(output, escape);
    ghost var between := w.colour;
    second := w.NowPlaying(output, escape);
    assert w.colour == between;
  }
}
