/**
 The pure labelling rules of the scraper: splitting a link title into company
 and role (`scrape_link_wrapper`), normalising the role the caller typed, and
 clamping the page count (`fetch_interview_data`).
 */
module Labels {
  import opened Wrappers
  import opened Text
  import opened Sequences

  /** One row of the result set. */
  datatype InterviewRecord = InterviewRecord(company: string, role: string, description: string)

  /** The (company, role) labels of a link: the two stripped halves of a title
      that splits on `|` into exactly two pieces; otherwise, and when the title is
      missing, the caller's company and role. */
  function TitleLabels(title: Option<string>, company: string, role: string): (r: (string, string))
    ensures title.None? || Count(title.value, '|') != 1 ==> r == (company, role)
    ensures title.Some? && Count(title.value, '|') == 1 ==> Trimmed(r.0) && Trimmed(r.1)
  {
    if title.None? then (company, role)
    else
      var pieces := Split(title.value, '|');
      SplitSpec(title.value, '|');
      if |pieces| == 2 then
        StripSpec(pieces[0]);
        StripSpec(pieces[1]);
        (Strip(pieces[0]), Strip(pieces[1]))
      else (company, role)
  }

  /** A title with exactly one `|` gives its stripped left and right sides. */
  lemma TitleSplits(left: string, right: string, company: string, role: string)
    requires '|' !in left && '|' !in right
    ensures TitleLabels(Some(left + "|" + right), company, role) == (Strip(left), Strip(right))
  {
    assert left + "|" + right == Join([left, right], '|');
    SplitJoin([left, right], '|');
  }

  /** A title with exactly one `|` gives the stripped text on each side of it. */
  lemma TitleOneBar(title: string, company: string, role: string)
    requires Count(title, '|') == 1
    ensures IndexOf(title, '|') < |title|
    ensures TitleLabels(Some(title), company, role) ==
      (Strip(title[..IndexOf(title, '|')]), Strip(title[IndexOf(title, '|') + 1..]))
  {
    CountAbsent(title, '|');
    IndexOfFound(title, '|');
    var k := IndexOf(title, '|');
    var left, right := title[..k], title[k + 1..];
    assert '|' !in left && title[k] == '|' by { IndexOfSpec(title, '|'); }
    CutAt(title, k);
    CountCut(left, title[k], right, '|');
    CountAbsent(left, '|');
    CountAbsent(right, '|');
    TitleSplits(left, right, company, role);
  }

  /** The record `scrape_link_wrapper` returns for a link with the given title
      once its page has been scraped: none unless the description is non-empty. */
  function LabelRecord(title: Option<string>, company: string, role: string, description: Option<string>): (r: Option<InterviewRecord>)
    ensures r.Some? <==> description.Some? && description.value != []
    ensures r.Some? ==> r.value.description == description.value
  {
    if description.Some? && description.value != [] then
      var (c, r) := TitleLabels(title, company, role);
      Some(InterviewRecord(c, r, description.value))
    else None
  }

  /** After the whitespace run that starts `s` comes a hyphen: the pattern
      `\s*-\s*` matches at the start of `s`. */
  predicate HyphenNext(s: string) {
    LeadingSpaces(s) < |s| && s[LeadingSpaces(s)] == '-'
  }

  /** What is left of `s` once the pattern has matched at its start: the
      whitespace run, the hyphen and the whitespace run after it are consumed. */
  function AfterHyphen(s: string): (r: string)
    requires HyphenNext(s)
    ensures |r| < |s|
  {
    var rest := s[LeadingSpaces(s) + 1..];
    rest[LeadingSpaces(rest)..]
  }

  /** The regex substitution `re.sub(r'\s*-\s*', ' - ', s)`: scanning left to
      right, each hyphen together with the whitespace run on each side of it
      becomes " - "; whitespace not followed by a hyphen is kept. */
  function SpaceHyphens(s: string): (r: string)
    ensures Count(r, '-') == Count(s, '-')
    decreases |s|
  {
    if s == [] then []
    else if HyphenNext(s) then
      var tail := SpaceHyphens(AfterHyphen(s));
      HyphenCount(s);
      CountConcat(" - ", tail, '-');
      " - " + tail
    else
      var tail := SpaceHyphens(s[1..]);
      CountConcat([s[0]], tail, '-');
      [s[0]] + tail
  }

  /** The role as `fetch_interview_data` passes it to the role filter: it keeps
      the hyphens of the role as typed, and a role without one is only upper-cased. */
  function NormaliseRole(roleInput: string): (r: string)
    ensures Count(r, '-') == Count(roleInput, '-')
    ensures '-' !in roleInput ==> r == Upper(roleInput)
  {
    var spaced := SpaceHyphens(roleInput);
    UpperCount(spaced);
    if '-' in roleInput then Upper(spaced)
    else NoHyphenUnchanged(roleInput); Upper(spaced)
  }

  lemma SpaceFree(w: string)
    requires AllSpace(w)
    ensures '-' !in w
  {
  }

  lemma PaddedHyphenCount(ws: string, c: char, wr: string, tail: string)
    requires AllSpace(ws) && AllSpace(wr) && c == '-'
    ensures Count(ws + ([c] + (wr + tail)), '-') == 1 + Count(tail, '-')
  {
    CountConcat(ws, [c] + (wr + tail), '-');
    CountConcat([c], wr + tail, '-');
    CountConcat(wr, tail, '-');
    SpaceFree(ws);
    SpaceFree(wr);
    CountAbsent(ws, '-');
    CountAbsent(wr, '-');
  }

  lemma Decompose(s: string, w: nat, v: nat)
    requires w < |s| && w + 1 + v <= |s|
    ensures s == s[..w] + ([s[w]] + (s[w + 1..][..v] + s[w + 1..][v..]))
  {
    var rest := s[w + 1..];
    assert rest == rest[..v] + rest[v..];
    assert s == s[..w] + ([s[w]] + rest);
  }

  /** The hyphen that one substitution step consumes is the only one it removes. */
  lemma HyphenCount(s: string)
    requires HyphenNext(s)
    ensures Count(s, '-') == 1 + Count(AfterHyphen(s), '-')
  {
    var w := LeadingSpaces(s);
    var rest := s[w + 1..];
    var v := LeadingSpaces(rest);
    assert AllSpace(s[..w]) by { LeadingSpacesSpec(s); }
    assert AllSpace(rest[..v]) by { LeadingSpacesSpec(rest); }
    Decompose(s, w, v);
    PaddedHyphenCount(s[..w], s[w], rest[..v], rest[v..]);
  }

  lemma {:induction false} UpperCount(s: string)
    ensures Count(Upper(s), '-') == Count(s, '-')
  {
    if s != [] {
      assert Upper(s)[1..] == Upper(s[1..]);
      UpperCount(s[1..]);
    }
  }

  /** Without a hyphen in `s` the pattern does not match at its start. */
  lemma NoHyphenNext(s: string)
    requires '-' !in s
    ensures !HyphenNext(s)
  {
    if LeadingSpaces(s) < |s| {
      assert s[LeadingSpaces(s)] in s;
    }
  }

  /** A hyphen-free string is left as it is by the substitution. */
  lemma {:induction false} NoHyphenUnchanged(s: string)
    requires '-' !in s
    ensures SpaceHyphens(s) == s
    decreases |s|
  {
    if s != [] {
      NoHyphenNext(s);
      TailNotIn(s, '-');
      NoHyphenUnchanged(s[1..]);
      ConsSplit(s);
    }
  }

  /** A hyphen-free prefix ending in a non-space keeps the pattern from matching at the start. */
  lemma NoMatchBefore(x: string, rest: string)
    requires x != [] && '-' !in x && !IsSpace(x[|x| - 1])
    ensures !HyphenNext(x + rest)
  {
    var s := x + rest;
    assert s[|x| - 1] == x[|x| - 1];
    LeadingSpacesBound(s, |x| - 1);
    assert s[LeadingSpaces(s)] == x[LeadingSpaces(s)];
    assert x[LeadingSpaces(s)] in x;
  }

  /** A hyphen-free prefix that does not end in whitespace is copied unchanged. */
  lemma {:induction false} PrefixCopied(x: string, rest: string)
    requires '-' !in x
    requires x == [] || !IsSpace(x[|x| - 1])
    ensures SpaceHyphens(x + rest) == x + SpaceHyphens(rest)
    decreases |x|
  {
    if x != [] {
      NoMatchBefore(x, rest);
      TailOfConcat(x, rest);
      TailNotIn(x, '-');
      assert x[1..] == [] || x[1..][|x[1..]| - 1] == x[|x| - 1];
      PrefixCopied(x[1..], rest);
      ConsConcat(x, SpaceHyphens(rest));
    } else {
      assert x + rest == rest;
    }
  }

  /** A hyphen after a whitespace run is a match, which consumes the whitespace after it. */
  lemma HyphenStep(w: string, c: char, z: string)
    requires AllSpace(w) && c == '-'
    ensures HyphenNext(w + ([c] + z))
    ensures AfterHyphen(w + ([c] + z)) == z[LeadingSpaces(z)..]
  {
    var s := w + ([c] + z);
    LeadingSpacesPadded(w, [c] + z);
    assert s[|w|] == c;
    DropPrefix(w, c, z);
  }

  /** A single hyphen with any whitespace around it becomes " - ", the rest of a
      hyphen-free role is kept: for example "sde-2" and "sde  -  2" become "sde - 2". */
  lemma SingleHyphen(x: string, w1: string, w2: string, y: string)
    requires '-' !in x && '-' !in y
    requires AllSpace(w1) && AllSpace(w2)
    requires x == [] || !IsSpace(x[|x| - 1])
    requires y == [] || !IsSpace(y[0])
    ensures SpaceHyphens(x + (w1 + (['-'] + (w2 + y)))) == x + (" - " + y)
  {
    var z := w2 + y;
    PrefixCopied(x, w1 + (['-'] + z));
    HyphenStep(w1, '-', z);
    LeadingSpacesPadded(w2, y);
    DropConcat(w2, y);
    NoHyphenUnchanged(y);
  }

  /** The role typed as "sde-2" is filtered as "SDE - 2". The role is a
      parameter fixed by the precondition, since unfolding the literal directly
      costs the solver far more than this proof. */
  lemma SdeExample(roleInput: string)
    requires roleInput == "sde-2"
    ensures NormaliseRole(roleInput) == "SDE - 2"
  {
    var x, y := "sde", "2";
    SingleHyphen(x, [], [], y);
    assert roleInput == x + ([] + (['-'] + ([] + y)));
    assert Upper(x + (" - " + y)) == "SDE - 2";
  }

  /** `max(1, int(pages))`: at least one page, and the caller's count when that is positive. */
  function ClampPages(pages: int): (n: int)
    ensures n >= 1
    ensures pages >= 1 ==> n == pages
    ensures pages < 1 ==> n == 1
  {
    if pages < 1 then 1 else pages
  }
}
