/**
 * The parser of the `cmus-remote -C status` output (`Cmus.get_info`): the
 * output must begin with `status`; on each line the keys are tried in the
 * dictionary's order, and the first key whose first occurrence starts before
 * index 5 sets its field to the stripped text after that occurrence; a line
 * starting with `set` ends the scan when the first key that does not move on
 * is absent from it.  The output string is a parameter: running the command
 * is not modelled.
 */
module CmusStatus {
  import opened Wrappers
  import opened Text

  /** The keys of the `info` dictionary. */
  datatype Field = Status | File | Artist | Album | Title | Stream

  /** The text of a key, as it is looked for in a line. */
  function Name(f: Field): string
  {
    match f
    case Status => "status"
    case File => "file"
    case Artist => "artist"
    case Album => "album"
    case Title => "title"
    case Stream => "stream"
  }

  /** The keys in the dictionary's insertion order, which is the order each line tries them in. */
  const Keys: seq<Field> := [Status, File, Artist, Album, Title, Stream]

  /** The `info` dictionary: exactly the six keys, each holding a string. */
  datatype Info = Info(status: string, file: string, artist: string, album: string, title: string, stream: string)
  {
    /** `info[f]`. */
    function Get(f: Field): string {
      match f
      case Status => status
      case File => file
      case Artist => artist
      case Album => album
      case Title => title
      case Stream => stream
    }

    /** `info[f] = v`: that key now holds `v`, every other key is unchanged. */
    function Set(f: Field, v: string): (r: Info)
      ensures r.Get(f) == v
      ensures forall g :: g != f ==> r.Get(g) == Get(g)
    {
      match f
      case Status => this.(status := v)
      case File => this.(file := v)
      case Artist => this.(artist := v)
      case Album => this.(album := v)
      case Title => this.(title := v)
      case Stream => this.(stream := v)
    }
  }

  /** The dictionary as it is created, every key holding `""`. */
  const Empty: Info := Info("", "", "", "", "", "")

  /** What one line does to the dictionary. */
  datatype LineEffect = SetField(f: Field, value: string) | Stop | Skip

  /**
   * What trying the key `f` on `line` decides: `Some(SetField(..))` when the
   * key first occurs before index 5, `Some(Stop)` when it does not occur and
   * the line starts with `set`, and `None` (go on with the next key) otherwise.
   */
  function TryKey(line: string, f: Field): Option<LineEffect> {
    var data := Name(f);
    match Find(line, data)
    case Some(index) =>
      if index < 5 then Some(SetField(f, Strip(line[index + |data|..]))) else None
    case None =>
      if StartsWith(line, "set") then Some(Stop) else None
  }

  /** The outcome of trying the keys from `Keys[k]` on, in order, on `line` (the inner loop). */
  function ScanKeys(line: string, k: nat): LineEffect
    requires k <= |Keys|
    decreases |Keys| - k
  {
    if k == |Keys| then Skip
    else
      match TryKey(line, Keys[k])
      case Some(e) => e
      case None => ScanKeys(line, k + 1)
  }

  /** What `line` does, all six keys tried in order. */
  function LineStep(line: string): LineEffect {
    ScanKeys(line, 0)
  }

  /** What each line of `lines` does, in order. */
  function Effects(lines: seq<string>): seq<LineEffect> {
    seq(|lines|, k requires 0 <= k < |lines| => LineStep(lines[k]))
  }

  /** The dictionary after the outer loop has applied `effects`, line by line, to `info`; a `Stop` ends the loop. */
  function Apply(info: Info, effects: seq<LineEffect>): Info
    decreases |effects|
  {
    if effects == [] then info
    else
      match effects[0]
      case Stop => info
      case SetField(f, v) => Apply(info.Set(f, v), effects[1..])
      case Skip => Apply(info, effects[1..])
  }

  /** The result of `get_info` for the command output `output`. */
  function ParseStatus(output: string): Option<Info> {
    if StartsWith(output, "status") then Some(Apply(Empty, Effects(SplitLines(output)))) else None
  }

  /**
   * `Cmus.get_info`: the outer loop over the lines of the output, with the
   * early `return` when a line ends the scan.
   */
  method GetInfo(output: string) returns (r: Option<Info>)
    ensures r == ParseStatus(output)
  {
    if !StartsWith(output, "status") {
      return None;
    }
    var lines := SplitLines(output);
    ghost var effects := Effects(lines);
    var info := Empty;
    var i := 0;
    while i < |lines|
      invariant 0 <= i <= |lines|
      invariant Apply(info, effects[i..]) == Apply(Empty, effects)
    {
      ApplyAt(info, effects, i);
      var effect := ScanLine(lines[i]);
      assert effect == effects[i];
      match effect {
        case Stop => return Some(info);
        case SetField(f, v) => info := info.Set(f, v);
        case Skip =>
      }
      i := i + 1;
    }
    return Some(info);
  }

  /** One turn of the outer loop: what the effect at `i` does to the dictionary. */
  lemma ApplyAt(info: Info, effects: seq<LineEffect>, i: nat)
    requires i < |effects|
    ensures Apply(info, effects[i..]) ==
      match effects[i]
      case Stop => info
      case SetField(f, v) => Apply(info.Set(f, v), effects[i + 1..])
      case Skip => Apply(info, effects[i + 1..])
  {
    assert effects[i..][0] == effects[i] && effects[i..][1..] == effects[i + 1..];
  }

  /**
   * The inner loop of `Cmus.get_info` over the six keys for one line: the
   * first key found before index 5 sets its field and breaks out; a key not
   * found in a `set` line ends the whole scan.
   */
  method ScanLine(line: string) returns (effect: LineEffect)
    ensures effect == LineStep(line)
  {
    var k := 0;
    while k < |Keys|
      invariant 0 <= k <= |Keys|
      invariant ScanKeys(line, k) == LineStep(line)
    {
      var key := Keys[k];
      var data := Name(key);
      match Find(line, data) {
        case Some(index) =>
          if index < 5 {
            return SetField(key, Strip(line[index + |data|..]));
          }
        case None =>
          if StartsWith(line, "set") {
            return Stop;
          }
      }
      k := k + 1;
    }
    return Skip;
  }

  // ---------------------------------------------------------------------------
  // What a single line does

  /** Trying the key `f` on `line` moves on to the next key. */
  predicate Passes(line: string, f: Field) {
    TryKey(line, f).None?
  }

  /** `i` is the first position at which `p` occurs in `s`. */
  predicate FirstOccurrence(s: string, p: string, i: nat) {
    MatchAt(s, p, i) && forall j :: 0 <= j < i ==> !MatchAt(s, p, j)
  }

  /** `Keys[n]` is the first key that does not pass on `line`: it decides what the line does. */
  predicate DecidesAt(line: string, n: nat) {
    n < |Keys| && !Passes(line, Keys[n]) && forall j :: 0 <= j < n ==> Passes(line, Keys[j])
  }

  /**
   * What trying one key decides, in terms of where the key occurs: it sets
   * its field exactly when the key occurs somewhere before index 5, and then
   * to the stripped text after its first occurrence; it ends the scan exactly
   * when the key does not occur at all and the line starts with `set`.
   */
  lemma TryKeySpec(line: string, f: Field)
    ensures (TryKey(line, f).Some? && TryKey(line, f).value.SetField?) <==> exists i :: 0 <= i < 5 && MatchAt(line, Name(f), i)
    ensures TryKey(line, f) == Some(Stop) <==> StartsWith(line, "set") && forall i :: 0 <= i ==> !MatchAt(line, Name(f), i)
    ensures forall i: nat :: i < 5 && FirstOccurrence(line, Name(f), i) ==>
      TryKey(line, f) == Some(SetField(f, Strip(line[i + |Name(f)|..])))
  {
    FindSpec(line, Name(f));
    forall i: nat | i < 5 && FirstOccurrence(line, Name(f), i)
      ensures Find(line, Name(f)) == Some(i)
    {
      var r := Find(line, Name(f));
      assert r.Some?;
      assert !(r.value < i) && !(i < r.value);
    }
  }

  lemma {:induction false} ScanSkips(line: string, k: nat)
    requires k <= |Keys|
    ensures ScanKeys(line, k) == Skip <==> forall j :: k <= j < |Keys| ==> Passes(line, Keys[j])
    decreases |Keys| - k
  {
    if k < |Keys| {
      ScanSkips(line, k + 1);
      if !Passes(line, Keys[k]) {
        assert TryKey(line, Keys[k]).value != Skip;
      }
    }
  }

  lemma {:induction false} ScanDecides(line: string, k: nat, n: nat)
    requires k <= n < |Keys| && !Passes(line, Keys[n])
    requires forall j :: k <= j < n ==> Passes(line, Keys[j])
    ensures ScanKeys(line, k) == TryKey(line, Keys[n]).value
    decreases n - k
  {
    if k < n {
      ScanDecides(line, k + 1, n);
    }
  }

  /**
   * What a line does, in full: it is skipped exactly when every key passes;
   * otherwise the first key that does not pass decides it.  A line therefore
   * sets at most one field.
   */
  lemma LineStepSpec(line: string)
    ensures LineStep(line) == Skip <==> forall j :: 0 <= j < |Keys| ==> Passes(line, Keys[j])
    ensures forall n: nat :: DecidesAt(line, n) ==> LineStep(line) == TryKey(line, Keys[n]).value
  {
    ScanSkips(line, 0);
    forall n: nat | DecidesAt(line, n) ensures LineStep(line) == TryKey(line, Keys[n]).value {
      ScanDecides(line, 0, n);
    }
  }

  /** The index of the first key that does not pass, when some key does not. */
  lemma FirstNotPassing(line: string) returns (n: nat)
    requires exists j :: 0 <= j < |Keys| && !Passes(line, Keys[j])
    ensures DecidesAt(line, n)
  {
    n := 0;
    while Passes(line, Keys[n])
      invariant n < |Keys|
      invariant forall j :: 0 <= j < n ==> Passes(line, Keys[j])
      decreases |Keys| - n
    {
      n := n + 1;
    }
  }

  /** Only a line starting with `set` can end the scan. */
  lemma StopNeedsSetLine(line: string)
    ensures LineStep(line) == Stop ==> StartsWith(line, "set")
  {
    LineStepSpec(line);
    if LineStep(line) == Stop {
      var n := FirstNotPassing(line);
    }
  }

  /** A line starting with `set` in which `status` does not occur ends the scan. */
  lemma SetLineWithoutStatusStops(line: string)
    requires StartsWith(line, "set") && forall i :: 0 <= i ==> !MatchAt(line, "status", i)
    ensures LineStep(line) == Stop
  {
    TryKeySpec(line, Status);
    LineStepSpec(line);
    assert DecidesAt(line, 0);
  }

  /**
   * A line setting a field sets it from the first occurrence of that key,
   * which lies before index 5, to the stripped text after it; every key
   * tried before it passed.
   */
  lemma SetFieldIsFirstHit(line: string, f: Field, v: string)
    requires LineStep(line) == SetField(f, v)
    ensures exists n: nat :: DecidesAt(line, n) && Keys[n] == f
    ensures exists i: nat :: FirstOccurrence(line, Name(f), i) && i < 5 && v == Strip(line[i + |Name(f)|..])
  {
    LineStepSpec(line);
    var n := FirstNotPassing(line);
    var e := TryKey(line, Keys[n]).value;
    assert e == SetField(f, v);
    TryKeySetsOwnField(line, Keys[n]);
    assert Keys[n] == f;
    TryKeySetsFromFirstOccurrence(line, f, v);
  }

  /** A key's trial can only set that key's own field. */
  lemma TryKeySetsOwnField(line: string, f: Field)
    ensures TryKey(line, f).Some? && TryKey(line, f).value.SetField? ==> TryKey(line, f).value.f == f
  {
  }

  /** A key whose trial sets its field sets it from the key's first occurrence, which lies before index 5. */
  lemma TryKeySetsFromFirstOccurrence(line: string, f: Field, v: string)
    requires TryKey(line, f) == Some(SetField(f, v))
    ensures exists i: nat :: FirstOccurrence(line, Name(f), i) && i < 5 && v == Strip(line[i + |Name(f)|..])
  {
    var data := Name(f);
    FindSpec(line, data);
    var i := Find(line, data).value;
    assert FirstOccurrence(line, data, i);
  }

  /** A line that begins with `status`, as the first line of accepted output does, sets the status field to the rest of that line, stripped. */
  lemma StatusLineSetsStatus(line: string)
    requires StartsWith(line, "status")
    ensures LineStep(line) == SetField(Status, Strip(line[6..]))
  {
    assert MatchAt(line, "status", 0);
    TryKeySpec(line, Status);
    LineStepSpec(line);
    assert DecidesAt(line, 0);
  }

  /** An occurrence of `p` at `i` agrees with `p` in its first two characters. */
  lemma MatchAtStartsWith(s: string, p: string, i: nat)
    requires |p| >= 2 && MatchAt(s, p, i)
    ensures s[i] == p[0] && s[i + 1] == p[1]
  {
    assert s[i..i + |p|][0] == s[i] && s[i..i + |p|][1] == s[i + 1];
  }

  /** A key that does not occur before index 5 in a line not starting with `set` moves on. */
  lemma LateKeyPasses(line: string, f: Field)
    requires !StartsWith(line, "set") && forall i :: 0 <= i < 5 ==> !MatchAt(line, Name(f), i)
    ensures Passes(line, f)
  {
    TryKeySpec(line, f);
  }

  /** In a line starting `tag albumartist `, neither `status`, `file` nor `artist` occurs before index 5. */
  lemma AlbumArtistHead(line: string)
    requires StartsWith(line, "tag albumartist ")
    ensures forall f, i :: f in {Status, File, Artist} && 0 <= i < 5 ==> !MatchAt(line, Name(f), i)
  {
    forall f, i | f in {Status, File, Artist} && 0 <= i < 5 ensures !MatchAt(line, Name(f), i) {
      assert line[i] == "tag albumartist "[i] && line[i + 1] == "tag albumartist "[i + 1];
      if MatchAt(line, Name(f), i) {
        MatchAtStartsWith(line, Name(f), i);
      }
    }
  }

  /** In a line starting `tag albumartist `, `album` first occurs at index 4. */
  lemma AlbumArtistAlbumAt4(line: string)
    requires StartsWith(line, "tag albumartist ")
    ensures FirstOccurrence(line, "album", 4)
  {
    forall j | 0 <= j < 4 ensures !MatchAt(line, "album", j) {
      assert line[j] == "tag albumartist "[j] && line[j + 1] == "tag albumartist "[j + 1];
      if MatchAt(line, "album", j) {
        MatchAtStartsWith(line, "album", j);
      }
    }
    assert line[4..9] == "tag albumartist "[4..9];
  }

  /**
   * When `status`, `file` and `artist` move on and `album` first occurs at
   * index 4, the line sets `album` to the stripped text after it.
   */
  lemma AlbumAt4Decides(line: string)
    requires Passes(line, Status) && Passes(line, File) && Passes(line, Artist)
    requires FirstOccurrence(line, "album", 4)
    ensures LineStep(line) == SetField(Album, Strip(line[9..]))
  {
    TryKeySpec(line, Album);
    assert Keys[0] == Status && Keys[1] == File && Keys[2] == Artist && Keys[3] == Album;
    assert DecidesAt(line, 3);
    LineStepSpec(line);
  }

  /**
   * A `tag albumartist` line sets `album`, not `artist`: `artist` is tried
   * first but occurs only from index 9, while `album` occurs at index 4, so
   * the value is everything after `album`, which starts with `artist`.
   */
  lemma AlbumArtistTagSetsAlbum(line: string)
    requires StartsWith(line, "tag albumartist ")
    ensures LineStep(line) == SetField(Album, Strip(line[9..]))
    ensures StartsWith(line[9..], "artist ")
  {
    assert !StartsWith(line, "set") by {
      assert line[0] == "tag albumartist "[0];
    }
    AlbumArtistHead(line);
    LateKeyPasses(line, Status);
    LateKeyPasses(line, File);
    LateKeyPasses(line, Artist);
    AlbumArtistAlbumAt4(line);
    AlbumAt4Decides(line);
    AlbumArtistValue(line);
  }

  /** What follows `album` in a line starting `tag albumartist ` starts with `artist `. */
  lemma AlbumArtistValue(line: string)
    requires StartsWith(line, "tag albumartist ")
    ensures StartsWith(line[9..], "artist ")
  {
    assert line[9..][..7] == line[..16][9..16];
  }

  // ---------------------------------------------------------------------------
  // What the whole output does

  /**
   * `get_info` gives a dictionary exactly when the output starts with
   * `status`; then the first line sets the status field to the rest of that
   * line, and the remaining lines act on that.
   */
  lemma ParseStatusShape(output: string)
    ensures ParseStatus(output).Some? <==> StartsWith(output, "status")
    ensures StartsWith(output, "status") ==>
      var lines := SplitLines(output);
      lines != [] && StartsWith(lines[0], "status")
      && ParseStatus(output).value == Apply(Empty.Set(Status, Strip(lines[0][6..])), Effects(lines)[1..])
  {
    if StartsWith(output, "status") {
      var lines := SplitLines(output);
      assert output[..6] == "status";
      var e := LineEnd(output, 0);
      forall k | 0 <= k < 6 ensures !IsLineBreak(output[k]) {
        assert output[k] == "status"[k];
      }
      assert lines[0] == output[..e];
      assert lines[0][..6] == output[..6];
      StatusLineSetsStatus(lines[0]);
      assert Effects(lines)[0] == LineStep(lines[0]);
    }
  }

  /** The effect `e` does not set the field `f`. */
  predicate Keeps(e: LineEffect, f: Field) {
    !(e.SetField? && e.f == f)
  }

  /** No effect in `effects` ends the scan. */
  predicate NoStop(effects: seq<LineEffect>) {
    forall k :: 0 <= k < |effects| ==> effects[k] != Stop
  }

  /** A field that no line sets keeps the value it started with. */
  lemma {:induction false} FieldUntouched(info: Info, effects: seq<LineEffect>, f: Field)
    requires forall k :: 0 <= k < |effects| ==> Keeps(effects[k], f)
    ensures Apply(info, effects).Get(f) == info.Get(f)
    decreases |effects|
  {
    if effects != [] {
      assert forall k :: 0 <= k < |effects| - 1 ==> effects[1..][k] == effects[k + 1];
      match effects[0]
      case Stop =>
      case SetField(g, v) => FieldUntouched(info.Set(g, v), effects[1..], f);
      case Skip => FieldUntouched(info, effects[1..], f);
    }
  }

  /** Applying effects free of `Stop` and then more effects is applying the two one after the other. */
  lemma {:induction false} ApplyAppend(info: Info, a: seq<LineEffect>, b: seq<LineEffect>)
    requires NoStop(a)
    ensures Apply(info, a + b) == Apply(Apply(info, a), b)
    decreases |a|
  {
    if a == [] {
      assert a + b == b;
    } else {
      assert (a + b)[0] == a[0] && (a + b)[1..] == a[1..] + b;
      assert NoStop(a[1..]) by {
        forall k | 0 <= k < |a| - 1 ensures a[1..][k] != Stop { assert a[1..][k] == a[k + 1]; }
      }
      assert a[0] != Stop;
      match a[0]
      case SetField(f, v) => ApplyAppend(info.Set(f, v), a[1..], b);
      case Skip => ApplyAppend(info, a[1..], b);
    }
  }

  /** The first effect that ends the scan hides every later one: only the effects before it count. */
  lemma StopCutsOff(info: Info, effects: seq<LineEffect>, k: nat)
    requires k < |effects| && effects[k] == Stop && NoStop(effects[..k])
    ensures Apply(info, effects) == Apply(info, effects[..k])
  {
    assert effects == effects[..k] + effects[k..];
    ApplyAppend(info, effects[..k], effects[k..]);
    assert effects[..k] + [] == effects[..k];
    ApplyAppend(info, effects[..k], []);
  }

  /** A field takes the value of the last line that sets it, when no line before that one ends the scan. */
  lemma LastWriteWins(info: Info, effects: seq<LineEffect>, k: nat, f: Field, v: string)
    requires k < |effects| && effects[k] == SetField(f, v) && NoStop(effects[..k])
    requires forall j :: k < j < |effects| ==> Keeps(effects[j], f)
    ensures Apply(info, effects).Get(f) == v
  {
    var pre, rest := effects[..k], effects[k..];
    assert effects == pre + rest;
    ApplyAppend(info, pre, rest);
    var mid := Apply(info, pre);
    assert rest[0] == effects[k] && rest[1..] == effects[k + 1..];
    FieldUntouched(mid.Set(f, v), effects[k + 1..], f);
  }

  // ---------------------------------------------------------------------------
  // The same facts about the output of `cmus-remote`

  /** A field that no line of the output sets is `""` in the dictionary `get_info` returns. */
  lemma UnsetFieldIsEmpty(output: string, f: Field)
    requires StartsWith(output, "status")
    requires forall k :: 0 <= k < |SplitLines(output)| ==> Keeps(LineStep(SplitLines(output)[k]), f)
    ensures ParseStatus(output).Some? && ParseStatus(output).value.Get(f) == ""
  {
    var effects := Effects(SplitLines(output));
    FieldUntouched(Empty, effects, f);
  }

  /**
   * Once a line ends the scan, `get_info` returns what the lines before it
   * gave, and nothing after it has any effect.
   */
  lemma StopLineEndsParse(output: string, k: nat)
    requires StartsWith(output, "status")
    requires k < |SplitLines(output)| && LineStep(SplitLines(output)[k]) == Stop
    requires forall j :: 0 <= j < k ==> LineStep(SplitLines(output)[j]) != Stop
    ensures ParseStatus(output) == Some(Apply(Empty, Effects(SplitLines(output)[..k])))
  {
    var lines := SplitLines(output);
    var effects := Effects(lines);
    assert Effects(lines[..k]) == effects[..k];
    StopCutsOff(Empty, effects, k);
  }

  /**
   * The field a line sets keeps that line's value in the dictionary
   * `get_info` returns when no earlier line ended the scan and no later line
   * sets that field again.
   */
  lemma LaterLineOverwrites(output: string, k: nat, f: Field, v: string)
    requires StartsWith(output, "status")
    requires k < |SplitLines(output)| && LineStep(SplitLines(output)[k]) == SetField(f, v)
    requires forall j :: 0 <= j < k ==> LineStep(SplitLines(output)[j]) != Stop
    requires forall j :: k < j < |SplitLines(output)| ==> Keeps(LineStep(SplitLines(output)[j]), f)
    ensures ParseStatus(output).Some? && ParseStatus(output).value.Get(f) == v
  {
    var effects := Effects(SplitLines(output));
    LastWriteWins(Empty, effects, k, f, v);
  }
}
