/** The share popover (src/app/components/share-popover.tsx): the Twitter and LinkedIn share
    links it opens, and its `open` and `copied` flags. */
module SharePopover {
  import opened Wrappers
  import opened Strings
  import opened UriEncoding

  /** `tweetText`: "Check out: " and the title when there is a non-empty title, otherwise
      nothing. */
  function TweetText(title: Option<string>): (r: string)
    ensures title.None? || title.value == [] ==> r == []
    ensures title.Some? && title.value != [] ==> r == "Check out: " + title.value
  {
    match title
    case Some(t) => if t != [] then "Check out: " + t else []
    case None => []
  }

  const TwitterIntent := "https://twitter.com/intent/tweet"
  const LinkedInShare := "https://www.linkedin.com/sharing/share-offsite/"

  /** The link `handleShareTwitter` opens. */
  function TwitterUrl(url: string, title: Option<string>): string {
    TwitterIntent + "?" + "url" + "=" + Encode(url) + "&" + "text" + "=" + Encode(TweetText(title))
  }

  /** The link `handleShareLinkedIn` opens. */
  function LinkedInUrl(url: string): string {
    LinkedInShare + "?" + "url" + "=" + Encode(url)
  }

  // Reading a share link back, the way the receiving site does

  /** `s` cut at the first `c`: what comes before it, and what comes after it if it occurs. */
  function CutAt(s: string, c: char): (r: (string, Option<string>))
    ensures r.1.None? <==> c !in s
    ensures r.1.None? ==> r.0 == s
    ensures r.1.Some? ==> s == r.0 + [c] + r.1.value && c !in r.0
  {
    if s == [] then ([], None)
    else if s[0] == c then ([], Some(s[1..]))
    else
      var rest := CutAt(s[1..], c);
      ([s[0]] + rest.0, rest.1)
  }

  /** A query parameter: its name and its decoded value, or `None` when the value is not a
      well-formed encoding. */
  datatype Param = Param(name: string, value: Option<string>)

  function ParseParam(piece: string): Param {
    var (name, value) := CutAt(piece, '=');
    Param(name, Decode(value.GetOr([])))
  }

  function ParseParams(pieces: seq<string>): (r: seq<Param>)
    ensures |r| == |pieces|
  {
    if pieces == [] then [] else [ParseParam(pieces[0])] + ParseParams(pieces[1..])
  }

  /** A link's target (before `?`) and its query parameters (after it, split at `&`). */
  function Target(link: string): string {
    CutAt(link, '?').0
  }

  function Params(link: string): seq<Param> {
    match CutAt(link, '?').1
    case None => []
    case Some(query) => ParseParams(SplitOn(query, '&'))
  }

  /** Cutting `a + [c] + b` where `a` has no `c` gives `a` and `b`. */
  lemma {:induction false} CutAtAppend(a: string, c: char, b: string)
    requires c !in a
    ensures CutAt(a + [c] + b, c) == (a, Some(b))
  {
    var s := a + [c] + b;
    if a == [] {
      assert s == [c] + b;
    } else {
      CutAtAppend(a[1..], c, b);
      assert s[0] == a[0] && s[1..] == a[1..] + [c] + b;
      assert [a[0]] + a[1..] == a;
    }
  }

  /** Neither share target has a query of its own. */
  lemma TargetsHaveNoQuery()
    ensures '?' !in TwitterIntent && '?' !in LinkedInShare
  {
  }

  /** `name=` followed by an encoded value reads back as that parameter. */
  lemma ParseEncodedParam(name: string, value: string)
    requires '=' !in name
    ensures ParseParam(name + "=" + Encode(value)) == Param(name, Some(value))
  {
    CutAtAppend(name, '=', Encode(value));
    DecodeEncode(value);
  }

  /** A link with one encoded parameter reads back as its target and that parameter. */
  lemma OneParamLink(target: string, name: string, value: string)
    requires '?' !in target && '=' !in name && '&' !in name
    ensures Target(target + "?" + name + "=" + Encode(value)) == target
    ensures Params(target + "?" + name + "=" + Encode(value)) == [Param(name, Some(value))]
  {
    var e := Encode(value);
    var first := name + "=" + e;
    NoQueryDelimiters(value);
    assert target + "?" + name + "=" + e == target + ['?'] + first;
    CutAtAppend(target, '?', first);
    SplitOnWithoutSeparator(first, '&');
    ParseEncodedParam(name, value);
  }

  /** A link with two encoded parameters reads back as its target and those two parameters. */
  lemma TwoParamLink(target: string, name1: string, value1: string, name2: string, value2: string)
    requires '?' !in target && '=' !in name1 && '&' !in name1 && '=' !in name2 && '&' !in name2
    ensures Target(target + "?" + name1 + "=" + Encode(value1) + "&" + name2 + "=" + Encode(value2)) == target
    ensures Params(target + "?" + name1 + "=" + Encode(value1) + "&" + name2 + "=" + Encode(value2))
              == [Param(name1, Some(value1)), Param(name2, Some(value2))]
  {
    var first := name1 + "=" + Encode(value1);
    var second := name2 + "=" + Encode(value2);
    NoQueryDelimiters(value1);
    NoQueryDelimiters(value2);
    assert target + "?" + name1 + "=" + Encode(value1) + "&" + name2 + "=" + Encode(value2)
        == target + ['?'] + (first + ['&'] + second);
    TwoParamQuery(target, first, second);
    ParseEncodedParam(name1, value1);
    ParseEncodedParam(name2, value2);
  }

  /** A query of two pieces without `&` splits into those two pieces. */
  lemma TwoParamQuery(target: string, first: string, second: string)
    requires '?' !in target && '&' !in first && '&' !in second
    ensures Target(target + ['?'] + (first + ['&'] + second)) == target
    ensures Params(target + ['?'] + (first + ['&'] + second)) == [ParseParam(first), ParseParam(second)]
  {
    CutAtAppend(target, '?', first + ['&'] + second);
    SplitOnAfterPiece(first, '&', second);
    SplitOnWithoutSeparator(second, '&');
    assert SplitOn(first + ['&'] + second, '&') == [first, second];
    assert ParseParams([first, second]) == [ParseParam(first)] + ParseParams([second]);
    assert ParseParams([second]) == [ParseParam(second)] + ParseParams([]);
  }

  /** The Twitter link goes to the tweet intent and carries exactly two parameters, which read
      back as the page URL and the tweet text, whatever characters they hold. */
  lemma TwitterUrlReadsBack(url: string, title: Option<string>)
    ensures Target(TwitterUrl(url, title)) == TwitterIntent
    ensures Params(TwitterUrl(url, title)) == [Param("url", Some(url)), Param("text", Some(TweetText(title)))]
  {
    TargetsHaveNoQuery();
    TwoParamLink(TwitterIntent, "url", url, "text", TweetText(title));
  }

  /** The LinkedIn link goes to the share-offsite page and carries exactly one parameter,
      which reads back as the page URL. */
  lemma LinkedInUrlReadsBack(url: string)
    ensures Target(LinkedInUrl(url)) == LinkedInShare
    ensures Params(LinkedInUrl(url)) == [Param("url", Some(url))]
  {
    TargetsHaveNoQuery();
    OneParamLink(LinkedInShare, "url", url);
  }

  // The popover's flags

  /** What can happen to the popover: it opens or closes, a copy of the link settles with the
      result `copyToClipboard` resolved to, or the two-second timer started by a successful
      copy fires. */
  datatype PopoverEvent = OpenChange(open: bool) | CopySettled(success: bool) | TimerFired

  datatype PopoverState = PopoverState(open: bool, copied: bool)

  const Initial := PopoverState(false, false)

  /** One event: closing resets `copied` (the effect on `open`, which runs only when `open`
      changes); a successful copy sets it and a failed one leaves it; the timer clears it. */
  function Step(st: PopoverState, e: PopoverEvent): (r: PopoverState)
    ensures e.OpenChange? ==> r.open == e.open
    ensures e.OpenChange? && st.open && !e.open ==> !r.copied
    ensures e.OpenChange? && e.open ==> r.copied == st.copied
    ensures e.OpenChange? && e.open == st.open ==> r == st
    ensures !e.OpenChange? ==> r.open == st.open
    ensures e.CopySettled? ==> r.copied == (e.success || st.copied)
    ensures e.TimerFired? ==> !r.copied
  {
    match e
    case OpenChange(o) => if o == st.open then st else PopoverState(o, o && st.copied)
    case CopySettled(success) => if success then st.(copied := true) else st
    case TimerFired => st.(copied := false)
  }

  /** The state after a run of events. */
  function Run(st: PopoverState, events: seq<PopoverEvent>): PopoverState
    decreases |events|
  {
    if events == [] then st else Step(Run(st, events[..|events| - 1]), events[|events| - 1])
  }

  /** The copy button shows "Copied!" and is disabled only after a copy that succeeded, with no
      timer fired since. */
  lemma {:induction false} CopiedOnlyAfterSuccess(events: seq<PopoverEvent>)
    requires Run(Initial, events).copied
    ensures exists i :: 0 <= i < |events| && events[i] == CopySettled(true)
              && forall j :: i < j < |events| ==> events[j] != TimerFired
  {
    var last := events[|events| - 1];
    var before := events[..|events| - 1];
    if last == CopySettled(true) {
      assert events[|events| - 1] == CopySettled(true);
    } else {
      assert Run(Initial, before).copied;
      CopiedOnlyAfterSuccess(before);
      var i :| 0 <= i < |before| && before[i] == CopySettled(true)
                && forall j :: i < j < |before| ==> before[j] != TimerFired;
      assert events[i] == CopySettled(true);
    }
  }

  /** The popover as a component. */
  class Popover {
    var open: bool
    var copied: bool

    constructor()
      ensures open == Initial.open && copied == Initial.copied
    {
      open := false;
      copied := false;
    }

    function State(): PopoverState
      reads this
    {
      PopoverState(open, copied)
    }

    /** The copy button's `disabled`. */
    function CopyDisabled(): (r: bool)
      reads this
      ensures r <==> State().copied
    {
      copied
    }

    /** `onOpenChange`, with the effect that follows a change of `open`. */
    method OpenChange(o: bool)
      modifies this
      ensures State() == Step(old(State()), PopoverEvent.OpenChange(o))
    {
      if o != open {
        open := o;
        if !o {
          copied := false;
        }
      }
    }

    /** The end of `handleCopyLink`, once `copyToClipboard(url)` has resolved. */
    method CopySettled(success: bool)
      modifies this
      ensures State() == Step(old(State()), PopoverEvent.CopySettled(success))
    {
      if success {
        copied := true;
      }
    }

    /** The timer a successful copy started. */
    method TimerFired()
      modifies this
      ensures State() == Step(old(State()), PopoverEvent.TimerFired)
    {
      copied := false;
    }
  }
}
