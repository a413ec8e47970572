/** The command line: the top-level command dispatch of `main` and the
    option handling and channel selection of `handleExec`. The configured
    channels are an input; each selected channel becomes a download job. */
module Cli {
  import opened Text
  import opened Outcomes
  import opened Feed

  // ---------------------------------------------------------------------------
  // Command dispatch

  /** What `main` does with its arguments: print the usage line and exit
      with status 1, log in, run `exec` on the remaining arguments, or print
      the extended help. */
  datatype Action = UsageAndExit | Login | Exec(args: seq<string>) | Help

  function Dispatch(args: seq<string>): (a: Action)
    ensures a.Exec? <==> 0 < |args| && args[0] == "exec"
    ensures a.Exec? ==> a.args == args[1..]
    ensures a.UsageAndExit? <==> |args| == 0 || args[0] !in {"login", "exec", "help"}
  {
    if |args| == 0 then UsageAndExit
    else if args[0] == "login" then Login
    else if args[0] == "exec" then Exec(args[1..])
    else if args[0] == "help" then Help
    else UsageAndExit
  }

  /** Each command word reaches its own handler, and only the first word is
      looked at. */
  lemma DispatchByFirstWord(word: string, more: seq<string>)
    ensures Dispatch([word] + more) ==
      if word == "login" then Login
      else if word == "exec" then Exec(more)
      else if word == "help" then Help
      else UsageAndExit
  {
    assert ([word] + more)[1..] == more;
  }

  // ---------------------------------------------------------------------------
  // Options

  predicate IsVideoFlag(a: string) {
    HasPrefix(a, "-v=") || HasPrefix(a, "--v=")
  }

  predicate IsFlag(a: string) {
    a == "--force" || IsVideoFlag(a)
  }

  /** The value of a video flag: what lies between its first and second `=`. */
  function FlagValue(a: string): string
    requires IsVideoFlag(a)
  {
    assert a[..|"-v="|] == "-v=" || a[..|"--v="|] == "--v=";
    var e := if HasPrefix(a, "-v=") then 2 else 3;
    assert a[e] == '=';
    assert OccursAt(a, "=", e) by {
      assert a[e..e + 1] == [a[e]];
    }
    Split(a, "=")[1]
  }

  /** `-v=<id>` with no further `=` names `<id>`; a further `=` cuts it. */
  lemma FlagValueOfId(id: string, extra: string)
    requires '=' !in id
    ensures FlagValue("-v=" + id) == id
    ensures FlagValue("--v=" + id) == id
    ensures FlagValue("-v=" + id + "=" + extra) == id
  {
    FlagValueAfter("-v", id, "");
    FlagValueAfter("--v", id, "");
    FlagValueAfter("-v", id, "=" + extra);
    assert "-v" + "=" + id + "" == "-v=" + id;
    assert "--v" + "=" + id + "" == "--v=" + id;
    assert "-v" + "=" + id + ("=" + extra) == "-v=" + id + "=" + extra;
  }

  lemma FlagValueAfter(flag: string, id: string, tail: string)
    requires flag == "-v" || flag == "--v"
    requires '=' !in id
    requires tail == "" || tail[0] == '='
    ensures IsVideoFlag(flag + "=" + id + tail)
    ensures FlagValue(flag + "=" + id + tail) == id
  {
    VideoFlagShape(flag, id + tail);
    assert flag + "=" + id + tail == flag + "=" + (id + tail);
    SplitFlagValue(flag, id, tail);
  }

  lemma VideoFlagShape(flag: string, rest: string)
    requires flag == "-v" || flag == "--v"
    ensures IsVideoFlag(flag + "=" + rest)
  {
    assert (flag + "=" + rest)[..|flag| + 1] == flag + "=";
  }

  lemma SplitFlagValue(flag: string, id: string, tail: string)
    requires '=' !in flag && '=' !in id
    requires tail == "" || tail[0] == '='
    ensures var parts := Split(flag + "=" + id + tail, "=");
      |parts| >= 2 && parts[1] == id
  {
    assert flag + "=" + id + tail == flag + ['='] + (id + tail);
    SplitAtChar(flag, '=', id + tail);
    SplitValueFirst(id, tail);
  }

  lemma SplitValueFirst(id: string, tail: string)
    requires '=' !in id
    requires tail == "" || tail[0] == '='
    ensures Split(id + tail, "=")[0] == id
  {
    if tail == "" {
      assert id + tail == id;
      SplitAbsentChar(id, '=');
    } else {
      assert id + tail == id + ['='] + tail[1..];
      SplitAtChar(id, '=', tail[1..]);
    }
  }

  lemma ForceIsNoVideoFlag()
    ensures !IsVideoFlag("--force")
  {
    assert "--force"[..3] == "--f";
    assert "--force"[..4] == "--fo";
  }

  /** The reference for what remains: the arguments that are not flags, in
      their order. */
  function Positional(args: seq<string>): (r: seq<string>)
    ensures |r| <= |args|
  {
    if |args| == 0 then []
    else
      var last := args[|args| - 1];
      Positional(args[..|args| - 1]) + (if IsFlag(last) then [] else [last])
  }

  /** The reference for the video ID: the value of the last video flag, or
      empty. */
  function LastVideoId(args: seq<string>): string {
    if |args| == 0 then ""
    else
      var last := args[|args| - 1];
      if IsVideoFlag(last) then FlagValue(last) else LastVideoId(args[..|args| - 1])
  }

  lemma {:induction false} PositionalMembers(args: seq<string>)
    ensures forall a :: a in Positional(args) <==> a in args && !IsFlag(a)
  {
    if |args| > 0 {
      PositionalMembers(args[..|args| - 1]);
      assert args == args[..|args| - 1] + [args[|args| - 1]];
    }
  }

  /** One more argument looked at. */
  lemma OptionStep(args: seq<string>, j: nat)
    requires j < |args|
    ensures Positional(args[..j + 1]) == Positional(args[..j]) + (if IsFlag(args[j]) then [] else [args[j]])
    ensures "--force" in args[..j + 1] <==> "--force" in args[..j] || args[j] == "--force"
    ensures LastVideoId(args[..j + 1]) == if IsVideoFlag(args[j]) then FlagValue(args[j]) else LastVideoId(args[..j])
  {
    assert args[..j + 1][..j] == args[..j];
    assert args[..j + 1] == args[..j] + [args[j]];
  }

  /** The argument the loop looks at is the next one of the command line. */
  lemma NextArgument(args: seq<string>, j: nat, rest: seq<string>, i: nat)
    requires j <= |args| && i < |rest| && rest[i..] == args[j..]
    ensures j < |args| && rest[i] == args[j] && rest[i + 1..] == args[j + 1..]
  {
    assert rest[i..][0] == rest[i] && args[j..][0] == args[j];
    assert rest[i..][1..] == rest[i + 1..] && args[j..][1..] == args[j + 1..];
  }

  /** Removing a flag in place keeps the loop's view of the arguments. */
  lemma RemovedFlag(args: seq<string>, j: nat, rest: seq<string>, i: nat)
    requires j < |args| && i < |rest| && IsFlag(args[j])
    requires rest[..i] == Positional(args[..j]) && rest[i] == args[j] && rest[i + 1..] == args[j + 1..]
    ensures Remove(rest, i)[..i] == Positional(args[..j + 1])
    ensures Remove(rest, i)[i..] == args[j + 1..]
  {
    OptionStep(args, j);
    assert Positional(args[..j + 1]) == Positional(args[..j]) + [];
  }

  /** Stepping over a positional argument keeps the loop's view too. */
  lemma KeptArgument(args: seq<string>, j: nat, rest: seq<string>, i: nat)
    requires j < |args| && i < |rest| && !IsFlag(args[j])
    requires rest[..i] == Positional(args[..j]) && rest[i] == args[j] && rest[i + 1..] == args[j + 1..]
    ensures rest[..i + 1] == Positional(args[..j + 1])
    ensures rest[i + 1..] == args[j + 1..]
  {
    OptionStep(args, j);
    assert rest[..i + 1] == rest[..i] + [rest[i]];
  }

  /** `append(args[:i], args[i+1:]...)`. */
  function Remove(s: seq<string>, i: nat): (r: seq<string>)
    requires i < |s|
    ensures |r| == |s| - 1
    ensures r[..i] == s[..i] && r[i..] == s[i + 1..]
  {
    s[..i] + s[i + 1..]
  }

  /** The option loop of `handleExec`: `--force` and video flags are removed
      where they stand, and the index is not advanced after a removal, so
      adjacent flags are all removed. */
  method StripFlags(args: seq<string>) returns (rest: seq<string>, force: bool, videoId: string)
    ensures rest == Positional(args)
    ensures force <==> "--force" in args
    ensures videoId == LastVideoId(args)
  {
    rest := args;
    force := false;
    videoId := "";
    var i := 0;
    ghost var j := 0;
    while i < |rest|
      invariant 0 <= j <= |args| && 0 <= i <= |rest|
      invariant rest[..i] == Positional(args[..j])
      invariant rest[i..] == args[j..]
      invariant force <==> "--force" in args[..j]
      invariant videoId == LastVideoId(args[..j])
      decreases |args| - j
    {
      var a := rest[i];
      OptionStep(args, j);
      NextArgument(args, j, rest, i);
      if a == "--force" {
        ForceIsNoVideoFlag();
        force := true;
        RemovedFlag(args, j, rest, i);
        rest := Remove(rest, i);
      } else if IsVideoFlag(a) {
        videoId := FlagValue(a);
        RemovedFlag(args, j, rest, i);
        rest := Remove(rest, i);
      } else {
        KeptArgument(args, j, rest, i);
        i := i + 1;
      }
      j := j + 1;
    }
    assert rest == rest[..i] + rest[i..];
    assert args[..j] == args;
  }

  // ---------------------------------------------------------------------------
  // Channel selection

  /** One download: the channel as the downloader sees it, and whether
      earlier output is wiped first. */
  datatype Job = Job(channel: Channel, force: bool)

  datatype ExecResult = Process(jobs: seq<Job>) | ChannelNotFound(id: string)

  /** The channel with its ID replaced by `v=<id>` when a video was named;
      the configured list itself is never changed. */
  function Override(c: Channel, videoId: string): (r: Channel)
    ensures r.id == c.id && r.name == c.name && r.topics == c.topics && r.videoLimit == c.videoLimit
    ensures videoId == "" ==> r == c
    ensures videoId != "" ==> r.channelId == "v=" + videoId
  {
    if videoId != "" then c.(channelId := "v=" + videoId) else c
  }

  /** The position of the first channel with the given ID. */
  function FindChannel(channels: seq<Channel>, id: string): (r: Option<nat>)
    ensures r.Some? ==> r.value < |channels| && channels[r.value].id == id
    ensures r.Some? ==> forall k :: 0 <= k < r.value ==> channels[k].id != id
    ensures r.None? ==> forall k :: 0 <= k < |channels| ==> channels[k].id != id
  {
    if |channels| == 0 then None
    else if channels[0].id == id then Some(0)
    else match FindChannel(channels[1..], id)
      case None => None
      case Some(k) => Some(k + 1)
  }

  /** The channels to download, once the options are known: the first
      channel with the given ID, or every channel in order when no ID is
      given. */
  function Select(channels: seq<Channel>, rest: seq<string>, videoId: string, force: bool): ExecResult {
    if |rest| > 0 then
      match FindChannel(channels, rest[0])
      case None => ChannelNotFound(rest[0])
      case Some(k) => Process([Job(Override(channels[k], videoId), force)])
    else
      Process(seq(|channels|, k requires 0 <= k < |channels| => Job(Override(channels[k], videoId), force)))
  }

  /** `handleExec`. */
  method HandleExec(channels: seq<Channel>, args: seq<string>) returns (r: ExecResult)
    ensures var rest := Positional(args);
      var force := "--force" in args;
      var videoId := LastVideoId(args);
      && (|rest| > 0 ==>
            && (r.ChannelNotFound? <==> forall c :: c in channels ==> c.id != rest[0])
            && (r.ChannelNotFound? ==> r.id == rest[0])
            && (r.Process? ==>
                  exists k :: && 0 <= k < |channels| && channels[k].id == rest[0]
                              && (forall j :: 0 <= j < k ==> channels[j].id != rest[0])
                              && r.jobs == [Job(Override(channels[k], videoId), force)]))
      && (|rest| == 0 ==>
            && r.Process? && |r.jobs| == |channels|
            && forall k :: 0 <= k < |channels| ==> r.jobs[k] == Job(Override(channels[k], videoId), force))
  {
    var rest, force, videoId := StripFlags(args);
    r := Select(channels, rest, videoId, force);
    if |rest| > 0 {
      var found := FindChannel(channels, rest[0]);
      if found.None? {
        forall c | c in channels ensures c.id != rest[0] {
          var k :| 0 <= k < |channels| && channels[k] == c;
        }
      }
    }
  }

  /** Naming a video makes every selected channel yield exactly that video,
      whatever its feed holds. */
  lemma VideoFlagSelectsOneVideo(channels: seq<Channel>, args: seq<string>, feed: FeedFetch)
    requires LastVideoId(args) != ""
    ensures var r := Select(channels, Positional(args), LastVideoId(args), "--force" in args);
      r.Process? ==> forall j :: j in r.jobs ==> LastVideos(j.channel, feed) == Ok([LastVideoId(args)])
  {
    var videoId := LastVideoId(args);
    var r := Select(channels, Positional(args), videoId, "--force" in args);
    if r.Process? {
      forall j | j in r.jobs ensures LastVideos(j.channel, feed) == Ok([videoId]) {
        var k :| 0 <= k < |channels| && j.channel == channels[k].(channelId := "v=" + videoId);
        SingleVideoOverride(channels[k], videoId, feed);
      }
    }
  }

  /** In `--force -v=abc news` only `news` is positional, and the video
      named is `abc`. */
  lemma OptionsExample()
    ensures Positional(["--force", "-v=abc", "news"]) == ["news"]
    ensures LastVideoId(["--force", "-v=abc", "news"]) == "abc"
  {
    var args := ["--force", "-v=abc", "news"];
    ExamplePositional(args);
    ExampleVideoId(args);
  }

  lemma ExamplePositional(args: seq<string>)
    requires args == ["--force", "-v=abc", "news"]
    ensures Positional(args) == ["news"]
  {
    ExampleFlags(args);
    OptionStep(args, 0);
    OptionStep(args, 1);
    OptionStep(args, 2);
    assert args[..0] == [];
    assert args[..3] == args;
  }

  lemma ExampleVideoId(args: seq<string>)
    requires args == ["--force", "-v=abc", "news"]
    ensures LastVideoId(args) == "abc"
  {
    ExampleFlags(args);
    FlagValueOfId("abc", "");
    assert FlagValue(args[1]) == "abc";
    OptionStep(args, 1);
    assert LastVideoId(args[..2]) == "abc";
    OptionStep(args, 2);
    assert LastVideoId(args[..3]) == "abc";
    assert args[..3] == args;
  }

  lemma ExampleFlags(args: seq<string>)
    requires args == ["--force", "-v=abc", "news"]
    ensures args[0] == "--force" && !IsVideoFlag(args[0])
    ensures IsVideoFlag(args[1]) && args[1] == "-v=" + "abc"
    ensures !IsFlag(args[2])
  {
    ForceIsNoVideoFlag();
    assert args[1][..3] == "-v=";
    assert args[2][..3][0] == 'n';
    assert args[2][..4][0] == 'n';
  }

  /** `exec --force -v=abc news` reaches the exec handler with the words
      after `exec`, which downloads video `abc` for channel `news` only,
      wiping earlier output first. */
  lemma ExecExample(news: Channel, other: Channel)
    requires news.id == "news" && other.id != "news"
    ensures Dispatch(["exec", "--force", "-v=abc", "news"]) == Exec(["--force", "-v=abc", "news"])
    ensures var args := ["--force", "-v=abc", "news"];
      Select([other, news], Positional(args), LastVideoId(args), "--force" in args) == Process([Job(news.(channelId := "v=abc"), true)])
  {
    var args := ["--force", "-v=abc", "news"];
    assert (["exec"] + args)[1..] == args;
    OptionsExample();
    assert "--force" in args by { assert args[0] == "--force"; }
    var channels := [other, news];
    assert "v=" + "abc" == "v=abc";
    assert FindChannel(channels, "news") == Some(1) by {
      assert channels[1..] == [news];
      assert FindChannel(channels[1..], "news") == Some(0);
    }
  }
}
