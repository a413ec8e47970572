/** Which videos a channel asks for: `GetLastVideos` with its single-video
    shortcut, its limit on the feed's entries, and `extractVideoID`. The
    feed request and its decoding are an input. */
module Feed {
  import opened Text
  import opened Outcomes

  /** The configured channel, reduced to the fields the pipeline's logic
      reads; `videoLimit` is a Go `int` and may be negative. */
  datatype Channel = Channel(id: string, name: string, channelId: string, topics: string, videoLimit: int)

  /** What fetching and decoding the channel's feed gave: the IDs of its
      entries, in feed order, or the step that failed. */
  datatype FeedFetch = RequestFailed | ReadFailed | Undecodable | Fetched(entryIds: seq<string>)

  /** The fatal errors that end the program. */
  datatype FeedError = CannotRequest | CannotRead | CannotDecode | NoVideos

  /** `extractVideoID`: what follows the last `:` of the entry ID, or the
      whole ID when it has none. */
  function ExtractVideoId(rssId: string): (id: string)
    ensures |id| <= |rssId| && rssId[|rssId| - |id|..] == id
    ensures ':' !in id
    ensures |id| < |rssId| ==> rssId[|rssId| - |id| - 1] == ':'
  {
    var i := LastIndexOfChar(rssId, ':');
    AfterLastColon(rssId, i);
    rssId[i + 1..]
  }

  lemma AfterLastColon(s: string, i: int)
    requires -1 <= i < |s|
    requires forall j :: i < j < |s| ==> s[j] != ':'
    ensures ':' !in s[i + 1..]
  {
    var t := s[i + 1..];
    forall k | 0 <= k < |t| ensures t[k] != ':' {
      assert t[k] == s[i + 1 + k];
    }
  }

  /** The ID is the longest colon-free ending of the entry ID: nothing
      longer qualifies. */
  lemma ExtractVideoIdLongest(rssId: string, suffix: string)
    requires |suffix| <= |rssId| && rssId[|rssId| - |suffix|..] == suffix
    requires ':' !in suffix
    ensures |suffix| <= |ExtractVideoId(rssId)|
  {
  }

  /** A feed entry ID of the form `yt:video:<id>` gives `<id>`. */
  lemma ExtractFromFeedId(id: string)
    requires ':' !in id
    ensures ExtractVideoId("yt:video:" + id) == id
  {
    var s := "yt:video:" + id;
    var r := ExtractVideoId(s);
    assert s[8] == ':';
    ExtractVideoIdLongest(s, id);
    assert s[|s| - |id|..] == id;
  }

  /** The number of feed entries processed: the configured limit, unless it
      is 0 or exceeds the feed, in which case the whole feed; a negative
      limit processes none. */
  function VideoCount(limit: int, entries: nat): (k: nat)
    ensures k <= entries
    ensures limit == 0 ==> k == entries
    ensures 0 < limit ==> k == if limit < entries then limit else entries
    ensures limit < 0 ==> k == 0
  {
    var bound := if limit == 0 || limit > entries then entries else limit;
    if bound < 0 then 0 else bound
  }

  /** `GetLastVideos`: a channel ID `v=<id>` names one video; otherwise the
      feed is read and the first entries, up to the limit, give the video
      IDs. A feed error or an empty feed is fatal. */
  function LastVideos(channel: Channel, feed: FeedFetch): (r: Result<seq<string>, FeedError>)
    ensures HasPrefix(channel.channelId, "v=") ==> r == Ok([channel.channelId[2..]])
    ensures r.Ok? && !HasPrefix(channel.channelId, "v=") ==>
      && feed.Fetched?
      && 0 < |feed.entryIds|
      && |r.value| == VideoCount(channel.videoLimit, |feed.entryIds|)
      && forall k :: 0 <= k < |r.value| ==> r.value[k] == ExtractVideoId(feed.entryIds[k])
  {
    if HasPrefix(channel.channelId, "v=") then Ok([TrimPrefix(channel.channelId, "v=")])
    else match feed
      case RequestFailed => Err(CannotRequest)
      case ReadFailed => Err(CannotRead)
      case Undecodable => Err(CannotDecode)
      case Fetched(ids) =>
        if |ids| == 0 then Err(NoVideos)
        else
          var n := VideoCount(channel.videoLimit, |ids|);
          Ok(seq(n, k requires 0 <= k < n => ExtractVideoId(ids[k])))
  }

  /** Any other channel fails exactly when the feed did or was empty. */
  lemma LastVideosFailures(channel: Channel, feed: FeedFetch)
    requires !HasPrefix(channel.channelId, "v=")
    ensures LastVideos(channel, feed).Err? <==> !feed.Fetched? || |feed.entryIds| == 0
    ensures feed == RequestFailed ==> LastVideos(channel, feed) == Err(CannotRequest)
    ensures feed == ReadFailed ==> LastVideos(channel, feed) == Err(CannotRead)
    ensures feed == Undecodable ==> LastVideos(channel, feed) == Err(CannotDecode)
    ensures feed == Fetched([]) ==> LastVideos(channel, feed) == Err(NoVideos)
  {
  }

  /** Overriding the channel ID with `v=<id>` makes the channel yield that
      one video, whatever its feed holds. */
  lemma SingleVideoOverride(channel: Channel, videoId: string, feed: FeedFetch)
    ensures LastVideos(channel.(channelId := "v=" + videoId), feed) == Ok([videoId])
  {
    var c := "v=" + videoId;
    assert c[..2] == "v=";
    assert c[2..] == videoId;
  }
}
