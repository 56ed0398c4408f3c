/** The check the movie page applies to a YouTube link before downloading its audio. */
module YouTubeLink {

  /** The 32-character prefix of a YouTube watch link. */
  const WatchPrefix := "https://www.youtube.com/watch?v="

  /** The total length of an accepted link: the prefix and an 11-character video id. */
  const LinkLength := 43

  const InvalidLinkMessage := "Invalid youtube link, please try again"

  /** Python's s[:n]: the first n characters, or all of s when it is shorter. */
  function Take(s: string, n: nat): string
  {
    if |s| <= n then s else s[..n]
  }

  /** youtube_link[:32] == WatchPrefix and len(youtube_link) == 43. */
  predicate IsValidLink(link: string)
  {
    Take(link, 32) == WatchPrefix && |link| == LinkLength
  }

  /** What pressing Process does with a link: download its audio, or report an invalid link. */
  datatype LinkOutcome = Download(link: string) | Invalid(message: string)

  function CheckLink(link: string): (o: LinkOutcome)
    ensures o.Download? <==> |link| == LinkLength && link[..|WatchPrefix|] == WatchPrefix
    ensures o.Download? ==> o.link == link
    ensures o.Invalid? ==> o.message == InvalidLinkMessage
  {
    if IsValidLink(link) then Download(link) else Invalid(InvalidLinkMessage)
  }

  /** An accepted link is exactly the prefix followed by an 11-character video id. */
  lemma ValidLinkIff(link: string)
    ensures IsValidLink(link) <==> |link| == LinkLength && link == WatchPrefix + link[|WatchPrefix|..]
  {
    if |link| == LinkLength && link == WatchPrefix + link[|WatchPrefix|..] {
      assert link[..32] == WatchPrefix;
    }
  }

  /** The prefix followed by any id is accepted exactly when the id has 11 characters. */
  lemma PrefixWithIdAccepted(id: string)
    ensures IsValidLink(WatchPrefix + id) <==> |id| == 11
  {
    var link := WatchPrefix + id;
    if |id| == 11 {
      assert link[..32] == WatchPrefix;
    }
  }

  /** A link no longer than the prefix is always rejected, even the prefix itself. */
  lemma ShortLinkRejected(link: string)
    requires |link| <= |WatchPrefix|
    ensures CheckLink(link) == Invalid(InvalidLinkMessage)
  {
  }

  /** Every short-form youtu.be link is rejected. */
  lemma ShortFormLinkRejected(link: string)
    requires |link| >= 17 && link[..17] == "https://youtu.be/"
    ensures CheckLink(link) == Invalid(InvalidLinkMessage)
  {
    if |link| == LinkLength {
      assert link[8] == link[..17][8] == 'y';
      assert WatchPrefix[8] == 'w';
      assert link[..32][8] == link[8];
    }
  }
}
