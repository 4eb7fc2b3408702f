/**
 * The userscript on AtCoder's editorial pages: it canonicalises each
 * editorial link, shows its score between an up and a down button, and
 * keeps a small per-link state machine (`Voting`) in step with the clicks
 * and with the status the server reports.
 *
 * `decodeURIComponent` and `encodeURIComponent` are parameters. Sending a
 * vote is modelled by returning the string that would be sent; the status
 * request is modelled by handing its reply to `ApplyStatus`.
 */
module Userscript {
  import opened Common
  import AtcoderApi
  import ServerlessVote
  import ServerlessStatus

  const JumpPrefix := "https://atcoder.jp/jump?url="

  /** `canonicalizeEditorialLink`: a jump link gives its decoded target,
      anything else is kept. */
  function CanonicalizeEditorialLink(decode: string -> string, url: string): string
  {
    if StartsWith(url, JumpPrefix) then decode(url[|JumpPrefix|..]) else url
  }

  /** The absolute form a page gives for an AtCoder-relative link is
      canonicalised by the script exactly as the backend canonicalises the
      relative one. */
  lemma SameCanonicalLink(decode: string -> string, path: string)
    requires StartsWith(path, "/jump?url=") || StartsWith(path, "/contests/")
    ensures AtcoderApi.CanonicalizeEditorialUrl(decode, path)
      == Some(CanonicalizeEditorialLink(decode, "https://atcoder.jp" + path))
  {
    var url := "https://atcoder.jp" + path;
    if StartsWith(path, "/jump?url=") {
      assert url[..|JumpPrefix|] == "https://atcoder.jp" + path[..10];
      assert url[|JumpPrefix|..] == path[10..];
    } else {
      assert url[19] == 'c' != JumpPrefix[19];
    }
  }

  // ---------------------------------------------------------------------
  // Form encoding

  /** `encodeURIComponent`: whatever it returns contains neither `&` nor
      `=`, which it escapes. */
  type UriEncoder = f: string -> string | forall s :: Excludes(f(s), '&') && Excludes(f(s), '=')
    witness EmptyEncoding

  function EmptyEncoding(s: string): string {
    ""
  }

  /** `enc(key)=enc(value)` for every entry, in the object's key order. */
  function FormPairs(enc: UriEncoder, data: seq<(string, string)>): (r: seq<string>)
    ensures |r| == |data|
    ensures forall i :: 0 <= i < |data| ==> r[i] == enc(data[i].0) + "=" + enc(data[i].1)
  {
    if data == [] then []
    else [enc(data[0].0) + "=" + enc(data[0].1)] + FormPairs(enc, data[1..])
  }

  /** `encodeFormData`. */
  function EncodeFormData(enc: UriEncoder, data: seq<(string, string)>): string {
    Join(FormPairs(enc, data), '&')
  }

  /** The body splits back at `&` into one `enc(k)=enc(v)` piece per entry,
      and each piece at `=` into the encoded key and value; no entries give
      the empty body. */
  lemma FormDataDecodes(enc: UriEncoder, data: seq<(string, string)>)
    ensures data == [] ==> EncodeFormData(enc, data) == ""
    ensures |data| >= 1 ==> Split(EncodeFormData(enc, data), '&') == FormPairs(enc, data)
    ensures forall i :: 0 <= i < |data| ==>
      Split(FormPairs(enc, data)[i], '=') == [enc(data[i].0), enc(data[i].1)]
  {
    var pairs := FormPairs(enc, data);
    forall i | 0 <= i < |data|
      ensures Excludes(pairs[i], '&')
      ensures Split(pairs[i], '=') == [enc(data[i].0), enc(data[i].1)]
    {
      PairSplits(enc(data[i].0), enc(data[i].1));
    }
    if |data| >= 1 {
      SplitJoin(pairs, '&');
    }
  }

  lemma PairSplits(k: string, v: string)
    requires Excludes(k, '&') && Excludes(k, '=') && Excludes(v, '&') && Excludes(v, '=')
    ensures Excludes(k + "=" + v, '&')
    ensures Split(k + "=" + v, '=') == [k, v]
  {
    assert k + "=" + v == k + ['='] + v;
    SplitCons(k, '=', v);
    SplitSingle(v, '=');
  }

  // ---------------------------------------------------------------------
  // Votes as the script sends and reads them

  /** The string `setVote(v)` sends. */
  function VoteString(v: int): (s: string)
    ensures s == "up" <==> v == 1
    ensures s == "down" <==> v == -1
    ensures s == "none" <==> v != 1 && v != -1
  {
    if v == 1 then "up" else if v == -1 then "down" else "none"
  }

  /** The vote `getVote` sets for a reported `current_vote`. */
  function VoteFromLabel(s: string): (v: int)
    ensures v == 1 <==> s == "up"
    ensures v == -1 <==> s == "down"
    ensures v == 0 <==> s != "up" && s != "down"
  {
    if s == "up" then 1 else if s == "down" then -1 else 0
  }

  /** JavaScript truthiness of `data.current_vote`: absent (`null`) and the
      empty string are false. */
  predicate Truthy(currentVote: Option<string>) {
    currentVote.Some? && currentVote.value != ""
  }

  /** The three votes survive every hop: the string the script sends is
      read back by the vote endpoint as the same vote, and the label the
      status endpoint reports for it is read back by the script as that
      vote. */
  lemma VoteStringsRoundTrip(v: int)
    requires -1 <= v <= 1
    ensures VoteFromLabel(VoteString(v)) == v
    ensures ServerlessVote.VoteValue(VoteString(v)) == Ok(v)
    ensures VoteFromLabel(ServerlessStatus.VoteLabel(if v == 0 then None else Some(v))) == v
  {
  }

  /** The fields of `status`'s reply that `getVote` reads. */
  datatype StatusReply = StatusReply(score: int, currentVote: Option<string>)

  /** The script's state for one editorial link: the score shown, the
      caller's vote, both buttons' `active` class and the vote their
      `onclick` casts, and the score view's text. */
  class Voting {
    const editorial: string
    var score: int
    var vote: int
    var upActive: bool
    var upAction: int
    var downActive: bool
    var downAction: int
    var shown: int

    /** The buttons and the view agree with the vote and the score: the up
        button is lit and undoes the vote exactly when the vote is 1, the
        down button likewise for -1, and the view shows the score. */
    ghost predicate Valid()
      reads this
    {
      && (upActive <==> vote == 1)
      && (downActive <==> vote == -1)
      && upAction == (if vote == 1 then 0 else 1)
      && downAction == (if vote == -1 then 0 else -1)
      && shown == score
    }

    /** `new Voting(editorial, elements)`, up to the `getVote()` request,
        whose reply arrives through `ApplyStatus`. */
    constructor (editorial: string)
      ensures Valid()
      ensures this.editorial == editorial && score == 0 && vote == 0
    {
      this.editorial := editorial;
      score, vote := 0, 0;
      upAction, downAction := 1, -1;
      upActive, downActive, shown := false, false, 0;
      new;
      var _ := SetVote(0, false);
    }

    /** `setVote(v, send)`: the old vote leaves the score and `v` enters
        it, the buttons follow `v`, and when sending, the vote string for
        `v` is sent. */
    method SetVote(v: int, send: bool) returns (sent: Option<string>)
      modifies this
      ensures Valid()
      ensures vote == v && score == old(score) - old(vote) + v
      ensures sent == if send then Some(VoteString(v)) else None
    {
      score := score - vote;
      vote := v;
      score := score + v;
      sent := None;
      if v == 1 {
        upActive, upAction := true, 0;
        downActive, downAction := false, -1;
        if send { sent := Some("up"); }
      } else if v == -1 {
        upActive, upAction := false, 1;
        downActive, downAction := true, 0;
        if send { sent := Some("down"); }
      } else {
        upActive, upAction := false, 1;
        downActive, downAction := false, -1;
        if send { sent := Some("none"); }
      }
      shown := score;
    }

    /** A click on the up button: it votes up, or takes an up vote back. */
    method ClickUp() returns (sent: Option<string>)
      requires Valid()
      modifies this
      ensures Valid()
      ensures vote == (if old(vote) == 1 then 0 else 1)
      ensures score == old(score) - old(vote) + vote
      ensures sent == Some(VoteString(vote))
    {
      sent := SetVote(upAction, true);
    }

    /** A click on the down button: it votes down, or takes a down vote
        back. */
    method ClickDown() returns (sent: Option<string>)
      requires Valid()
      modifies this
      ensures Valid()
      ensures vote == (if old(vote) == -1 then 0 else -1)
      ensures score == old(score) - old(vote) + vote
      ensures sent == Some(VoteString(vote))
    {
      sent := SetVote(downAction, true);
    }

    /** `getVote`'s handler: an error reply changes nothing; otherwise the
        server's score is shown, and a truthy `current_vote` sets the vote
        without sending it. */
    method ApplyStatus(reply: Result<StatusReply>)
      requires Valid()
      modifies this
      ensures Valid()
      ensures reply.Err? ==> score == old(score) && vote == old(vote)
      ensures reply.Ok? ==> score == reply.value.score
      ensures reply.Ok? ==> vote == if Truthy(reply.value.currentVote) then VoteFromLabel(reply.value.currentVote.value) else old(vote)
    {
      if reply.Err? {
        return;
      }
      score := reply.value.score;
      shown := score;
      var current := reply.value.currentVote;
      if current.Some? && current.value != "" {
        var v := VoteFromLabel(current.value);
        vote := v;
        var _ := SetVote(v, false);
      }
    }
  }
}
