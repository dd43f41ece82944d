/**
 The detail-extraction step of the scraper (`scrape_interview_details`). The
 browser is replaced by the elements of one interview page it would find.
 */
module DetailExtractor {
  import opened Wrappers
  import opened Text
  import opened Sequences

  /** One interview page after the "continue reading" click. `loads` is false when
      loading or reading the page raises an error outside the guarded lookups;
      `journey` is the text of the preparation-journey element, if there is one;
      `rounds[i]` is the text of the element with id `interview-round-v2-i`;
      `fallback` is the text of the generic content block, if there is one. */
  datatype DetailPage = DetailPage(
    loads: bool,
    journey: Option<string>,
    rounds: map<nat, string>,
    fallback: Option<string>)

  const JourneyHeading: string := "## Interview Preparation Journey\n"
  const RoundsHeading: string := "\n\n## Interview Rounds"

  /** The section for round i, headed `### Round i`. */
  function RoundSection(i: nat, text: string): string {
    "\n\n### Round " + NatToString(i) + "\n" + text
  }

  /** The journey has a non-empty stripped text. */
  predicate HasJourney(page: DetailPage) {
    page.journey.Some? && Strip(page.journey.value) != []
  }

  function JourneyParts(page: DetailPage): seq<string> {
    if HasJourney(page) then [JourneyHeading + Strip(page.journey.value)] else []
  }

  /** The round ids at or above i that the page has: what a scan from i can still find. */
  function Unprobed(rounds: map<nat, string>, i: nat): set<nat> {
    set k | k in rounds && i <= k
  }

  /** Number of consecutive round ids i, i + 1, ... that the page has. */
  function RoundRun(rounds: map<nat, string>, i: nat): nat
    decreases Unprobed(rounds, i)
  {
    if i in rounds then
      assert i !in Unprobed(rounds, i + 1);
      1 + RoundRun(rounds, i + 1)
    else 0
  }

  /** The sections of rounds i, i + 1, ... up to the first missing id. */
  function RoundSections(rounds: map<nat, string>, i: nat): seq<string>
    decreases Unprobed(rounds, i)
  {
    if i in rounds then
      assert i !in Unprobed(rounds, i + 1);
      [RoundSection(i, Strip(rounds[i]))] + RoundSections(rounds, i + 1)
    else []
  }

  /** The rounds heading followed by the round sections, or nothing without round 1. */
  function RoundParts(rounds: map<nat, string>): seq<string> {
    var sections := RoundSections(rounds, 1);
    if sections == [] then [] else [RoundsHeading] + sections
  }

  function Parts(page: DetailPage): seq<string> {
    JourneyParts(page) + RoundParts(page.rounds)
  }

  /** What `scrape_interview_details` returns for the page. */
  function Details(page: DetailPage): (r: Option<string>)
    ensures r.None? <==> !page.loads || (!HasJourney(page) && 1 !in page.rounds && page.fallback.None?)
  {
    if !page.loads then None
    else if Parts(page) != [] then Some(Join(Parts(page), '\n'))
    else if page.fallback.None? then None
    else Some(Join(if Strip(page.fallback.value) != [] then [Strip(page.fallback.value)] else [], '\n'))
  }

  /** The scan from id i finds RoundRun(rounds, i) sections. */
  lemma {:induction false} RoundSectionsLength(rounds: map<nat, string>, i: nat)
    ensures |RoundSections(rounds, i)| == RoundRun(rounds, i)
    decreases Unprobed(rounds, i)
  {
    if i in rounds {
      assert i !in Unprobed(rounds, i + 1);
      RoundSectionsLength(rounds, i + 1);
    }
  }

  /** The k-th section of a scan from id i is round i + k, under its own heading:
      rounds appear in ascending order and every one of them exists. */
  lemma {:induction false} RoundSectionAt(rounds: map<nat, string>, i: nat, k: nat)
    requires k < RoundRun(rounds, i)
    ensures i + k in rounds
    ensures k < |RoundSections(rounds, i)|
    ensures RoundSections(rounds, i)[k] == RoundSection(i + k, Strip(rounds[i + k]))
    decreases k
  {
    RoundSectionsLength(rounds, i);
    if k > 0 {
      RoundSectionAt(rounds, i + 1, k - 1);
    }
  }

  /** The id right after the run is missing: that is where the scan stops. */
  lemma {:induction false} RoundRunEnds(rounds: map<nat, string>, i: nat)
    ensures i + RoundRun(rounds, i) !in rounds
    decreases Unprobed(rounds, i)
  {
    if i in rounds {
      assert i !in Unprobed(rounds, i + 1);
      RoundRunEnds(rounds, i + 1);
    }
  }

  /** Round i is in the description iff rounds 1..i all exist: the scan stops at
      the first missing id and drops every later round. */
  lemma RoundIncludedIff(rounds: map<nat, string>, i: nat)
    requires 1 <= i
    ensures i <= RoundRun(rounds, 1) <==> forall k :: 1 <= k <= i ==> k in rounds
  {
    var n := RoundRun(rounds, 1);
    RoundRunEnds(rounds, 1);
    if i <= n {
      forall k | 1 <= k <= i ensures k in rounds {
        RoundSectionAt(rounds, 1, k - 1);
      }
    }
  }

  /** When rounds 1..i all exist, round i's section, with its stripped text,
      is one of the parts of the description. */
  lemma RoundInDescription(page: DetailPage, i: nat)
    requires 1 <= i
    requires forall k :: 1 <= k <= i ==> k in page.rounds
    ensures RoundSection(i, Strip(page.rounds[i])) in Parts(page)
  {
    RoundIncludedIff(page.rounds, i);
    RoundSectionAt(page.rounds, 1, i - 1);
    var sections := RoundSections(page.rounds, 1);
    assert RoundParts(page.rounds) == [RoundsHeading] + sections;
    assert sections[i - 1] in RoundParts(page.rounds);
  }

  lemma {:induction false} HeadingIsNoSection(rounds: map<nat, string>, i: nat)
    ensures multiset(RoundSections(rounds, i))[RoundsHeading] == 0
    decreases Unprobed(rounds, i)
  {
    if i in rounds {
      assert i !in Unprobed(rounds, i + 1);
      HeadingIsNoSection(rounds, i + 1);
      var section := RoundSection(i, Strip(rounds[i]));
      assert section[4] == '#' && RoundsHeading[4] == ' ';
    }
  }

  lemma JourneyIsNoHeading(page: DetailPage)
    ensures multiset(JourneyParts(page))[RoundsHeading] == 0
  {
    if HasJourney(page) {
      assert JourneyParts(page)[0][0] == '#' && RoundsHeading[0] == '\n';
    }
  }

  lemma RoundPartsHeading(rounds: map<nat, string>)
    ensures multiset(RoundParts(rounds))[RoundsHeading] == if 1 in rounds then 1 else 0
    ensures 1 in rounds ==>
      |RoundParts(rounds)| > 1 &&
      RoundParts(rounds)[0] == RoundsHeading &&
      RoundParts(rounds)[1] == RoundSection(1, Strip(rounds[1]))
  {
    HeadingIsNoSection(rounds, 1);
    var sections := RoundSections(rounds, 1);
    if sections != [] {
      assert multiset(RoundParts(rounds)) == multiset{RoundsHeading} + multiset(sections);
    }
  }

  /** The rounds heading appears exactly once, right after the journey and
      before the first round, when round 1 exists, and not at all otherwise. */
  lemma RoundsHeadingOnce(page: DetailPage)
    ensures multiset(Parts(page))[RoundsHeading] == if 1 in page.rounds then 1 else 0
    ensures 1 in page.rounds ==>
      |Parts(page)| > |JourneyParts(page)| + 1 &&
      Parts(page)[|JourneyParts(page)|] == RoundsHeading &&
      Parts(page)[|JourneyParts(page)| + 1] == RoundSection(1, Strip(page.rounds[1]))
  {
    JourneyIsNoHeading(page);
    RoundPartsHeading(page.rounds);
    assert multiset(Parts(page)) == multiset(JourneyParts(page)) + multiset(RoundParts(page.rounds));
  }

  /** The journey section comes first, with its heading, exactly when the
      journey's stripped text is non-empty. */
  lemma JourneyFirst(page: DetailPage)
    ensures HasJourney(page) ==> Parts(page)[0] == JourneyHeading + Strip(page.journey.value)
    ensures !HasJourney(page) ==> Parts(page) == RoundParts(page.rounds)
  {
  }

  /** Whenever the page has a journey or a first round, the fallback block is
      never read: replacing it changes nothing. */
  lemma FallbackUnread(page: DetailPage, other: Option<string>)
    requires HasJourney(page) || 1 in page.rounds
    ensures Details(page.(fallback := other)) == Details(page)
  {
    if !HasJourney(page) {
      assert RoundSections(page.rounds, 1) != [];
    }
  }

  /** With no journey and no first round, an absent fallback block gives None and
      a present one gives its stripped text, which may be empty. */
  lemma FallbackResult(page: DetailPage)
    requires page.loads && !HasJourney(page) && 1 !in page.rounds
    ensures page.fallback.None? ==> Details(page) == None
    ensures page.fallback.Some? ==> Details(page) == Some(Strip(page.fallback.value))
  {
  }

  /** The description is the empty string exactly when the only thing found is a
      fallback block holding nothing but whitespace. */
  lemma EmptyDescription(page: DetailPage)
    ensures Details(page) == Some([]) <==>
      page.loads && !HasJourney(page) && 1 !in page.rounds &&
      page.fallback.Some? && AllSpace(page.fallback.value)
  {
    if page.loads {
      if Parts(page) != [] {
        JoinEmpty(Parts(page), '\n');
        if HasJourney(page) {
          assert Parts(page)[0] != [];
        } else {
          assert Parts(page)[0] == RoundsHeading;
        }
      } else if page.fallback.Some? {
        StripEmpty(page.fallback.value);
      }
    }
  }

  lemma SectionsStep(rounds: map<nat, string>, i: nat, done: seq<string>)
    requires i in rounds
    ensures done + RoundSections(rounds, i) == (done + [RoundSection(i, Strip(rounds[i]))]) + RoundSections(rounds, i + 1)
  {
  }

  /** Everything the round scan gathered, after the journey parts, is the page's parts. */
  lemma PartsAssembled(page: DetailPage, sections: seq<string>, roundsFound: bool)
    requires sections == RoundSections(page.rounds, 1)
    requires roundsFound <==> sections != []
    ensures JourneyParts(page) + (if roundsFound then [RoundsHeading] else []) + sections == Parts(page)
  {
    if !roundsFound {
      assert JourneyParts(page) + [] + [] == JourneyParts(page);
    }
  }

  /** `scrape_interview_details`: the journey section, then the rounds probed
      from id 1 upward until one is missing, then the fallback block only when
      nothing else was found; the parts are joined with newlines. */
  method ScrapeInterviewDetails(page: DetailPage) returns (description: Option<string>)
    ensures description == Details(page)
  {
    if !page.loads {
      return None;
    }
    var parts: seq<string> := [];
    if page.journey.Some? {
      var journey := Strip(page.journey.value);
      if journey != [] {
        parts := parts + [JourneyHeading + journey];
      }
    }
    ghost var journeyParts := JourneyParts(page);
    assert parts == journeyParts;
    var roundIndex: nat := 1;
    var roundsFound := false;
    ghost var sections: seq<string> := [];
    while true
      invariant 1 <= roundIndex
      invariant sections + RoundSections(page.rounds, roundIndex) == RoundSections(page.rounds, 1)
      invariant roundsFound <==> sections != []
      invariant parts == journeyParts + (if roundsFound then [RoundsHeading] else []) + sections
      decreases RoundRun(page.rounds, roundIndex)
    {
      if roundIndex !in page.rounds {
        break;
      }
      var roundText := Strip(page.rounds[roundIndex]);
      if !roundsFound {
        parts := parts + [RoundsHeading];
        roundsFound := true;
        EmptyConcat(sections, []);
      }
      assert parts == journeyParts + [RoundsHeading] + sections;
      var section := RoundSection(roundIndex, roundText);
      parts := parts + [section];
      Snoc3(journeyParts, [RoundsHeading], sections, section);
      SectionsStep(page.rounds, roundIndex, sections);
      sections := sections + [section];
      roundIndex := roundIndex + 1;
    }
    PartsAssembled(page, sections, roundsFound);
    if parts == [] {
      if page.fallback.None? {
        return None;
      }
      var fallback := Strip(page.fallback.value);
      if fallback != [] {
        parts := parts + [fallback];
      }
    }
    description := Some(Join(parts, '\n'));
  }
}
