/** The list of coordinators of an API client and how a call works through it: clientapi/v1/api.go. */
module Failover {
  import opened Text
  import opened Ordering

  // ----- normalising coordinator URLs -----

  function TrimSlashes(s: string): (r: string)
    ensures r <= s && (r == "" || r[|r| - 1] != '/')
    ensures forall i | |r| <= i < |s| :: s[i] == '/'
  {
    if s != "" && s[|s| - 1] == '/' then TrimSlashes(s[..|s| - 1]) else s
  }

  function Norm(raw: string): string {
    TrimSlashes(TrimSpace(raw))
  }

  /** The normal forms of the URLs, each at its first occurrence, without blanks. */
  function Normalize(urls: seq<string>): seq<string> {
    FirstForms(urls, Norm)
  }

  method NormalizeControlPlaneUrls(urls: seq<string>) returns (normalized: seq<string>)
    ensures normalized == Normalize(urls)
  {
    normalized := CollectForms(urls, Norm);
  }

  /** Normalising keeps exactly the non-blank normal forms and repeats none. */
  lemma NormalizeMembers(urls: seq<string>)
    ensures forall u :: u in Normalize(urls) <==> u != "" && exists raw | raw in urls :: Norm(raw) == u
    ensures DistinctBy(Normalize(urls), Itself)
  {
    hide Norm, FirstForms;
    FormsMembers(urls, Norm);
  }

  /** A URL that normalising leaves alone. */
  predicate Clean(url: string) {
    url != "" && Norm(url) == url
  }

  /** A space stands before the trailing slashes. */
  ghost predicate SpaceBeforeSlashes(s: string) {
    exists i | 0 <= i < |s| :: IsSpace(s[i]) && forall j | i < j < |s| :: s[j] == '/'
  }

  /** The trailing slashes removed, a space is left at the end exactly if one stood before them. */
  lemma SpaceLeftIff(t: string)
    ensures SpaceBeforeSlashes(t) <==> TrimSlashes(t) != "" && IsSpace(TrimSlashes(t)[|TrimSlashes(t)| - 1])
  {
    var r := TrimSlashes(t);
    assert !IsSpace('/');
    if r != "" && IsSpace(r[|r| - 1]) {
      assert t[|r| - 1] == r[|r| - 1];
    }
    if i :| 0 <= i < |t| && IsSpace(t[i]) && forall j | i < j < |t| :: t[j] == '/' {
      assert i < |r|;
      assert r[|r| - 1] == t[|r| - 1];
    }
  }

  lemma TrimSpaceShortens(s: string)
    ensures |TrimSpace(s)| <= |s|
    ensures TrimSpace(s) != "" ==> !IsSpace(TrimSpace(s)[0])
  {
    TrimSpaceIdempotent(s);
  }

  /** Text that starts with no space and does not end in a slash is normal unless it ends in a space. */
  lemma NormalIff(r: string)
    requires r != "" ==> !IsSpace(r[0]) && r[|r| - 1] != '/'
    ensures Norm(r) == r <==> r == "" || !IsSpace(r[|r| - 1])
  {
    hide TrimSpace, IsSpace;
    TrimSpaceIdempotent(r);
    TrimSpaceShortens(r);
    if Norm(r) == r {
      assert TrimSpace(r) == r;
    }
  }

  /** Normalising trims space and then slashes, so it is idempotent exactly on the texts with no
      space before their trailing slashes. */
  lemma NormIdempotentIff(raw: string)
    ensures Norm(Norm(raw)) == Norm(raw) <==> !SpaceBeforeSlashes(TrimSpace(raw))
  {
    hide TrimSpace, IsSpace, SpaceBeforeSlashes;
    var t := TrimSpace(raw);
    TrimSpaceShortens(raw);
    SpaceLeftIff(t);
    var r := Norm(raw);
    assert r != "" ==> r[0] == t[0];
    NormalIff(r);
  }

  /** Where idempotence fails. */
  lemma NormNotIdempotent()
    ensures Norm(Norm("a /")) != Norm("a /")
  {
    hide TrimSpace, Norm;
    var s := "a /";
    assert Trimmed(s) && IsSpace(s[1]);
    TrimSpaceIdempotent(s);
    assert forall j | 1 < j < |s| :: s[j] == '/';
    NormIdempotentIff(s);
  }

  // ----- the client -----

  /** What a coordinator answers to one call. */
  datatype Answer = UnusableUrl | NoTransport | Status(code: int)

  predicate Success(a: Answer) { a.Status? && 200 <= a.code < 300 }

  predicate FailsOver(a: Answer) {
    a.NoTransport? || (a.Status? && !Success(a) && (a.code == 408 || a.code == 429 || a.code >= 500))
  }

  datatype CallResult =
    | Succeeded(url: string, code: int)
    | Refused(code: int)
    | BadUrl
    | Exhausted(failures: seq<string>)

  /** The coordinators a call contacts: from the front, up to the first that does not fail over. */
  function Contacted(urls: seq<string>, answer: string -> Answer): (r: seq<string>)
    ensures r <= urls
  {
    if urls == [] then []
    else if FailsOver(answer(urls[0])) then [urls[0]] + Contacted(urls[1..], answer)
    else [urls[0]]
  }

  function CallOutcome(urls: seq<string>, answer: string -> Answer): CallResult {
    var contacted := Contacted(urls, answer);
    if contacted == [] || FailsOver(answer(contacted[|contacted| - 1])) then Exhausted(contacted)
    else
      var url := contacted[|contacted| - 1];
      match answer(url)
      case UnusableUrl => BadUrl
      case NoTransport => Exhausted(contacted)
      case Status(code) => if Success(answer(url)) then Succeeded(url, code) else Refused(code)
  }

  /** The coordinator list of a client as a value, and what one call does to it. */
  datatype Client = Client(baseUrl: string, baseUrls: seq<string>)

  function New(urls: seq<string>): Client {
    var normalized := Normalize(urls);
    Client(if normalized == [] then "" else normalized[0], normalized)
  }

  function Coordinators(c: Client): seq<string> {
    Normalize([c.baseUrl] + c.baseUrls)
  }

  /** `setActiveBaseURL`. */
  function Activate(c: Client, url: string): Client {
    if Norm(url) == "" then c else Client(Norm(url), Normalize([Norm(url)] + c.baseUrls))
  }

  function Call(c: Client, answer: string -> Answer): Client {
    match CallOutcome(Coordinators(c), answer)
    case Succeeded(url, _) => Activate(c, url)
    case Refused(_) => c
    case BadUrl => c
    case Exhausted(_) => c
  }

  function Calls(c: Client, answers: seq<string -> Answer>): Client {
    if answers == [] then c else Call(Calls(c, answers[..|answers| - 1]), answers[|answers| - 1])
  }

  /** What a call contacts from position `i` on: one URL, or that URL and what follows it. */
  lemma ContactedFrom(urls: seq<string>, answer: string -> Answer, i: nat)
    requires i < |urls|
    ensures Contacted(urls[i..], answer) ==
            [urls[i]] + if FailsOver(answer(urls[i])) then Contacted(urls[i + 1..], answer) else []
  {
    hide FailsOver;
    assert urls[i..][1..] == urls[i + 1..];
  }

  lemma {:induction false} ContactedPrefix(urls: seq<string>, answer: string -> Answer, i: nat)
    requires i <= |urls| && forall j | 0 <= j < i :: FailsOver(answer(urls[j]))
    ensures Contacted(urls, answer) == urls[..i] + Contacted(urls[i..], answer)
  {
    hide Contacted, FailsOver;
    if i == 0 {
      assert urls[0..] == urls;
    } else {
      ContactedPrefix(urls, answer, i - 1);
      ContactedFrom(urls, answer, i - 1);
      assert urls[..i] == urls[..i - 1] + [urls[i - 1]];
    }
  }

  class Api {
    var baseUrl: string
    var baseUrls: seq<string>
    var token: string
    var nodeCredential: string

    function State(): Client
      reads this
    {
      Client(baseUrl, baseUrls)
    }

    constructor (urls: seq<string>, token: string)
      ensures State() == New(urls) && this.token == token && nodeCredential == ""
    {
      var normalized := NormalizeControlPlaneUrls(urls);
      baseUrls := normalized;
      baseUrl := if normalized == [] then "" else normalized[0];
      this.token, nodeCredential := token, "";
    }

    method SetActiveBaseUrl(url: string)
      modifies this`baseUrl, this`baseUrls
      ensures State() == Activate(old(State()), url)
    {
      hide Norm, Normalize;
      var value := Norm(url);
      if value != "" {
        baseUrl := value;
        baseUrls := NormalizeControlPlaneUrls([value] + baseUrls);
      }
    }

    /** The failover loop of one call. */
    method Request(answer: string -> Answer) returns (r: CallResult, contacted: seq<string>)
      modifies this`baseUrl, this`baseUrls
      ensures contacted == Contacted(Coordinators(old(State())), answer)
      ensures r == CallOutcome(Coordinators(old(State())), answer)
      ensures State() == Call(old(State()), answer)
    {
      hide Norm, Normalize;
      var urls := NormalizeControlPlaneUrls([baseUrl] + baseUrls);
      var failures: seq<string> := [];
      for i := 0 to |urls|
        invariant failures == urls[..i]
        invariant forall j | 0 <= j < i :: FailsOver(answer(urls[j]))
        invariant unchanged(this)
      {
        var url := urls[i];
        ContactedPrefix(urls, answer, i);
        if !FailsOver(answer(url)) {
          contacted := failures + [url];
          if answer(url).UnusableUrl? {
            return BadUrl, contacted;
          }
          if !Success(answer(url)) {
            return Refused(answer(url).code), contacted;
          }
          SetActiveBaseUrl(url);
          return Succeeded(url, answer(url).code), contacted;
        }
        failures := failures + [url];
      }
      ContactedPrefix(urls, answer, |urls|);
      assert urls[..|urls|] == urls && urls[|urls|..] == [];
      return Exhausted(failures), failures;
    }

    /** A copy that authenticates with another token only. */
    method WithBearer(bearer: string) returns (clone: Api)
      ensures fresh(clone)
      ensures clone.State() == State()
      ensures clone.token == TrimSpace(bearer) && clone.nodeCredential == ""
    {
      hide TrimSpace, New;
      clone := new Api([], TrimSpace(bearer));
      clone.baseUrl, clone.baseUrls := baseUrl, baseUrls;
    }

    /** Polling an enrollment request goes through a copy: whichever coordinator answers, this
        client's coordinators and credentials stay as they are. */
    method PollEnrollment(bearer: string, answer: string -> Answer) returns (r: CallResult)
      ensures unchanged(this)
      ensures r == CallOutcome(Coordinators(State()), answer)
    {
      hide Normalize, CallOutcome;
      var clone := WithBearer(bearer);
      var contacted;
      r, contacted := clone.Request(answer);
    }
  }

  // ----- runs of calls -----

  /** A duplicate-free list of clean URLs with the active one in front. */
  ghost predicate Settled(c: Client) {
    && (forall u | u in c.baseUrls :: Clean(u))
    && DistinctBy(c.baseUrls, Itself)
    && c.baseUrl == (if c.baseUrls == [] then "" else c.baseUrls[0])
  }

  function Without(urls: seq<string>, url: string): seq<string> {
    if urls == [] then []
    else Without(urls[..|urls| - 1], url) + (if urls[|urls| - 1] == url then [] else [urls[|urls| - 1]])
  }

  lemma {:induction false} WithoutMembers(urls: seq<string>, url: string)
    ensures forall u :: u in Without(urls, url) <==> u in urls && u != url
    ensures DistinctBy(urls, Itself) ==> DistinctBy(Without(urls, url), Itself)
    ensures url !in urls ==> Without(urls, url) == urls
  {
    if urls != [] {
      var n := |urls| - 1;
      assert urls == urls[..n] + [urls[n]];
      WithoutMembers(urls[..n], url);
      if DistinctBy(urls, Itself) {
        DistinctInit(urls, Itself);
        DistinctSnoc(Without(urls[..n], url), urls[n], Itself);
      }
    }
  }

  lemma NormalizeSnoc(urls: seq<string>, url: string)
    requires Clean(url)
    ensures Normalize(urls + [url]) == if url in Normalize(urls) then Normalize(urls) else Normalize(urls) + [url]
  {
    hide Norm;
    assert (urls + [url])[..|urls|] == urls;
  }

  lemma WithoutSnoc(urls: seq<string>, last: string, url: string)
    ensures Without(urls + [last], url) == Without(urls, url) + if last == url then [] else [last]
  {
    assert (urls + [last])[..|urls|] == urls;
  }

  /** On clean, duplicate-free lists, putting a URL in front and normalising moves it to the front. */
  lemma {:induction false} MoveToFront(url: string, urls: seq<string>)
    requires Clean(url) && (forall u | u in urls :: Clean(u)) && DistinctBy(urls, Itself)
    ensures Normalize([url] + urls) == [url] + Without(urls, url)
  {
    hide Clean, Normalize, Without;
    if urls == [] {
      NormalizeOne(url);
      assert [url] + urls == [url];
    } else {
      var n := |urls| - 1;
      var before, last := urls[..n], urls[n];
      DistinctInit(urls, Itself);
      assert urls == before + [last];
      MoveToFront(url, before);
      WithoutMembers(before, url);
      WithoutSnoc(before, last, url);
      NormalizeSnoc([url] + before, last);
      assert [url] + urls == ([url] + before) + [last];
      assert last !in before by { assert Itself(last) == last; }
    }
  }

  lemma NormalizeOne(url: string)
    requires Clean(url)
    ensures Normalize([url]) == [url] + Without([], url)
  {
    hide Norm;
    NormalizeSnoc([], url);
    assert [] + [url] == [url];
  }

  lemma {:induction false} NormalizeClean(urls: seq<string>)
    requires (forall u | u in urls :: Clean(u)) && DistinctBy(urls, Itself)
    ensures Normalize(urls) == urls
  {
    hide Norm;
    if urls != [] {
      var n := |urls| - 1;
      DistinctInit(urls, Itself);
      assert urls == urls[..n] + [urls[n]];
      NormalizeClean(urls[..n]);
      assert urls[n] in urls && Itself(urls[n]) == urls[n];
    }
  }

  /** A settled client contacts its own list, in order. */
  lemma SettledCoordinators(c: Client)
    requires Settled(c)
    ensures Coordinators(c) == c.baseUrls
  {
    if c.baseUrls == [] {
      BlankNorm();
      assert [c.baseUrl] + c.baseUrls == [""];
      assert [""][..0] == [];
    } else {
      hide Norm;
      MoveToFront(c.baseUrl, c.baseUrls);
      HeadOut(c.baseUrls);
    }
  }

  lemma BlankNorm()
    ensures Norm("") == ""
  {
  }

  lemma {:induction false} HeadOut(urls: seq<string>)
    requires urls != [] && DistinctBy(urls, Itself)
    ensures [urls[0]] + Without(urls, urls[0]) == urls
  {
    var n := |urls| - 1;
    assert urls == urls[..n] + [urls[n]];
    if n == 0 {
      assert Without(urls[..n], urls[0]) == [];
    } else {
      DistinctInit(urls, Itself);
      HeadOut(urls[..n]);
      assert Itself(urls[0]) != Itself(urls[n]);
    }
  }

  /** One call of a settled client: only a 2xx answer changes anything; it moves the coordinator that
      gave it to the front and keeps the others in order. */
  lemma CallMovesWinnerToFront(c: Client, answer: string -> Answer)
    requires Settled(c)
    ensures Settled(Call(c, answer)) && SamePermutation(Call(c, answer).baseUrls, c.baseUrls)
    ensures match CallOutcome(c.baseUrls, answer)
            case Succeeded(url, _) => url in c.baseUrls && Call(c, answer) == Client(url, [url] + Without(c.baseUrls, url))
            case Refused(_) => Call(c, answer) == c
            case BadUrl => Call(c, answer) == c
            case Exhausted(_) => Call(c, answer) == c
  {
    hide Norm, Normalize;
    SettledCoordinators(c);
    var outcome := CallOutcome(c.baseUrls, answer);
    if outcome.Succeeded? {
      var url := outcome.url;
      assert url in Contacted(c.baseUrls, answer);
      MoveToFront(url, c.baseUrls);
      WithoutMembers(c.baseUrls, url);
      FrontDistinct(c.baseUrls, url);
      SameMembersPermute([url] + Without(c.baseUrls, url), c.baseUrls, Itself);
    }
  }

  lemma FrontDistinct(urls: seq<string>, url: string)
    requires DistinctBy(urls, Itself)
    ensures DistinctBy([url] + Without(urls, url), Itself)
  {
    WithoutMembers(urls, url);
    var front := [url] + Without(urls, url);
    forall i, j | 0 <= i < j < |front|
      ensures Itself(front[i]) != Itself(front[j])
    {
      assert front[j] == Without(urls, url)[j - 1];
      assert front[j] in Without(urls, url);
      assert i > 0 ==> front[i] == Without(urls, url)[i - 1];
    }
  }

  /** Each call contacts each coordinator at most once, in list order, and goes past only those that
      failed over. */
  lemma {:induction false} ContactsEachOnce(urls: seq<string>, answer: string -> Answer)
    requires DistinctBy(urls, Itself)
    ensures Contacted(urls, answer) <= urls && DistinctBy(Contacted(urls, answer), Itself)
    ensures forall i | 0 <= i < |Contacted(urls, answer)| - 1 :: FailsOver(answer(urls[i]))
    ensures |Contacted(urls, answer)| < |urls| ==>
              Contacted(urls, answer) != [] && !FailsOver(answer(urls[|Contacted(urls, answer)| - 1]))
  {
    if urls != [] {
      assert DistinctBy(urls[1..], Itself);
      ContactsEachOnce(urls[1..], answer);
      var rest := Contacted(urls[1..], answer);
      assert forall i | 0 <= i < |urls| - 1 :: urls[1..][i] == urls[i + 1];
      if FailsOver(answer(urls[0])) {
        forall i | 0 <= i < |rest|
          ensures FailsOver(answer(urls[i]))
        {
          if i > 0 {
            assert urls[i] == urls[1..][i - 1];
          }
        }
      }
    }
  }

  /** A client built from URLs without a space before their trailing slashes starts settled. */
  lemma NewIsSettled(urls: seq<string>)
    requires forall raw | raw in urls :: !SpaceBeforeSlashes(TrimSpace(raw))
    ensures Settled(New(urls)) && New(urls).baseUrls == Normalize(urls)
  {
    hide Norm, SpaceBeforeSlashes, TrimSpace;
    NormalizeMembers(urls);
    forall u | u in Normalize(urls)
      ensures Clean(u)
    {
      var raw :| raw in urls && Norm(raw) == u;
      NormIdempotentIff(raw);
    }
  }

  /** Over any run of calls, whatever the coordinators answer, the active URL is the head of a
      duplicate-free permutation of the original list. */
  lemma {:induction false} CallsPermute(urls: seq<string>, answers: seq<string -> Answer>)
    requires forall raw | raw in urls :: !SpaceBeforeSlashes(TrimSpace(raw))
    ensures var c := Calls(New(urls), answers);
            Settled(c) && SamePermutation(c.baseUrls, Normalize(urls)) && Coordinators(c) == c.baseUrls
  {
    hide Norm, Normalize, SpaceBeforeSlashes, TrimSpace, Call;
    var c := Calls(New(urls), answers);
    if answers == [] {
      NewIsSettled(urls);
    } else {
      var n := |answers| - 1;
      CallsPermute(urls, answers[..n]);
      CallMovesWinnerToFront(Calls(New(urls), answers[..n]), answers[n]);
    }
    SettledCoordinators(c);
  }

  /** A client with an active URL never loses it. */
  lemma {:induction false} ActiveUrlStays(c: Client, answers: seq<string -> Answer>)
    requires c.baseUrl != ""
    ensures Calls(c, answers).baseUrl != ""
  {
    hide Norm, Normalize;
    if answers != [] {
      ActiveUrlStays(c, answers[..|answers| - 1]);
    }
  }

  // ----- which coordinator decides -----

  /** A coordinator that cannot be reached, or answers 408, 429 or a server error. */
  predicate Unavailable(a: Answer) {
    a == NoTransport || (a.Status? && (a.code == 408 || a.code == 429 || a.code >= 500))
  }

  /** The first coordinator that is available decides the call, whatever the later ones would answer: a
      2xx is a success, another status is final, and so is a URL that cannot be used. */
  lemma FirstAvailableDecides(urls: seq<string>, answer: string -> Answer, i: nat)
    requires i < |urls| && (forall j | 0 <= j < i :: Unavailable(answer(urls[j]))) && !Unavailable(answer(urls[i]))
    ensures Contacted(urls, answer) == urls[..i + 1]
    ensures CallOutcome(urls, answer) ==
            if answer(urls[i]) == UnusableUrl then BadUrl
            else if 200 <= answer(urls[i]).code <= 299 then Succeeded(urls[i], answer(urls[i]).code)
            else Refused(answer(urls[i]).code)
  {
    forall j | 0 <= j < i
      ensures FailsOver(answer(urls[j]))
    {
      assert Unavailable(answer(urls[j]));
    }
    ContactedPrefix(urls, answer, i);
    ContactedFrom(urls, answer, i);
    hide Contacted;
    assert urls[..i + 1] == urls[..i] + [urls[i]];
  }

  /** If none is available, the call fails with all of them. */
  lemma NoneAvailable(urls: seq<string>, answer: string -> Answer)
    requires forall j | 0 <= j < |urls| :: Unavailable(answer(urls[j]))
    ensures Contacted(urls, answer) == urls && CallOutcome(urls, answer) == Exhausted(urls)
  {
    forall j | 0 <= j < |urls|
      ensures FailsOver(answer(urls[j]))
    {
      assert Unavailable(answer(urls[j]));
    }
    ContactedPrefix(urls, answer, |urls|);
    assert urls[|urls|..] == [] && urls[..|urls|] == urls;
  }

  // ----- exactly when the list stays -----

  // Whether a request can be made to a URL at all does not depend on the moment: `usable` stands for
  // `newRequest` and its check of the URL, which accepts only URLs with a scheme and a host.

  ghost predicate LawfulUsable(usable: string -> bool) {
    forall u | usable(u) :: Norm(u) != ""
  }

  /** A call in which exactly the unusable URLs are refused before any request. */
  ghost predicate Possible(usable: string -> bool, answer: string -> Answer) {
    forall u :: answer(u).UnusableUrl? <==> !usable(u)
  }

  ghost predicate AllPossible(usable: string -> bool, answers: seq<string -> Answer>) {
    forall i | 0 <= i < |answers| :: Possible(usable, answers[i])
  }

  /** The coordinator every call starts with, if any, is refused. */
  predicate Stuck(usable: string -> bool, c: Client) {
    Coordinators(c) == [] || !usable(Coordinators(c)[0])
  }

  lemma {:induction false} StuckStays(usable: string -> bool, c: Client, answers: seq<string -> Answer>)
    requires Stuck(usable, c) && AllPossible(usable, answers)
    ensures Calls(c, answers) == c
  {
    hide Norm, Normalize;
    if answers != [] {
      var n := |answers| - 1;
      StuckStays(usable, c, answers[..n]);
      assert Possible(usable, answers[n]);
    }
  }

  lemma NormShrinks(s: string)
    ensures |Norm(s)| <= |s| && (|Norm(s)| == |s| ==> Norm(s) == s)
  {
    hide TrimSpace;
    TrimSpaceShortens(s);
    SpaceIsCut(s);
  }

  lemma SpaceIsCut(s: string)
    ensures |TrimSpace(s)| == |s| ==> TrimSpace(s) == s
  {
  }

  /** Of the URLs that normalising would change, a longest one. */
  lemma {:induction false} LongestUnclean(urls: seq<string>) returns (longest: string)
    requires exists u | u in urls :: Norm(u) != u
    ensures longest in urls && Norm(longest) != longest
    ensures forall u | u in urls && Norm(u) != u :: |u| <= |longest|
  {
    hide Norm;
    var n := |urls| - 1;
    assert urls == urls[..n] + [urls[n]];
    longest := urls[n];
    if exists u | u in urls[..n] :: Norm(u) != u {
      var before := LongestUnclean(urls[..n]);
      if Norm(urls[n]) == urls[n] || |urls[n]| <= |before| {
        longest := before;
      }
    }
  }

  /** A longest URL that normalising would change is gone once some coordinator has answered. */
  lemma LongestIsGone(c: Client, k: string, longest: string)
    requires c.baseUrls != [] && c.baseUrl == c.baseUrls[0]
    requires k in Coordinators(c)
    requires longest in c.baseUrls && Norm(longest) != longest
    requires forall u | u in c.baseUrls && Norm(u) != u :: |u| <= |longest|
    ensures longest !in Normalize([Norm(k)] + c.baseUrls)
  {
    hide Norm, Normalize;
    var urls := [Norm(k)] + c.baseUrls;
    NormalizeMembers(urls);
    NormalizeMembers([c.baseUrl] + c.baseUrls);
    if longest in Normalize(urls) {
      var raw :| raw in urls && Norm(raw) == longest;
      var x :| x in [c.baseUrl] + c.baseUrls && Norm(x) == k;
      assert x in c.baseUrls;
      NormShrinks(raw);
      NormShrinks(x);
      NormShrinks(k);
    }
  }

  /** The list keeps its members over every run exactly if no URL has a space before its trailing slashes,
      or no call gets past the check of its first URL. */
  lemma ListStaysIff(urls: seq<string>, usable: string -> bool)
    requires LawfulUsable(usable)
    ensures (forall answers | AllPossible(usable, answers) :: SamePermutation(Calls(New(urls), answers).baseUrls, Normalize(urls))) <==>
            (forall raw | raw in urls :: !SpaceBeforeSlashes(TrimSpace(raw))) || Stuck(usable, New(urls))
  {
    hide Norm, Normalize, SpaceBeforeSlashes, TrimSpace, Call, SamePermutation, AllPossible, Stuck, LawfulUsable;
    if forall raw | raw in urls :: !SpaceBeforeSlashes(TrimSpace(raw)) {
      forall answers | AllPossible(usable, answers)
        ensures SamePermutation(Calls(New(urls), answers).baseUrls, Normalize(urls))
      {
        CallsPermute(urls, answers);
      }
    } else if Stuck(usable, New(urls)) {
      forall answers | AllPossible(usable, answers)
        ensures SamePermutation(Calls(New(urls), answers).baseUrls, Normalize(urls))
      {
        StuckStays(usable, New(urls), answers);
        SameList(New(urls).baseUrls, Normalize(urls));
      }
    } else {
      var answers := ChangingRun(urls, usable);
    }
  }

  lemma SameList(a: seq<string>, b: seq<string>)
    requires a == b
    ensures SamePermutation(a, b)
  {
  }

  /** Every usable coordinator answers. */
  function AllAnswer(usable: string -> bool): string -> Answer {
    url => if usable(url) then Status(200) else UnusableUrl
  }

  lemma ChangingRun(urls: seq<string>, usable: string -> bool) returns (answers: seq<string -> Answer>)
    requires LawfulUsable(usable) && !Stuck(usable, New(urls))
    requires exists raw | raw in urls :: SpaceBeforeSlashes(TrimSpace(raw))
    ensures AllPossible(usable, answers)
    ensures !SamePermutation(Calls(New(urls), answers).baseUrls, Normalize(urls))
  {
    hide Norm, Normalize, SpaceBeforeSlashes, TrimSpace;
    var c, answer := New(urls), AllAnswer(usable);
    NormalizeMembers(urls);
    var spaced :| spaced in urls && SpaceBeforeSlashes(TrimSpace(spaced));
    NormIdempotentIff(spaced);
    assert Norm(spaced) in c.baseUrls by { assert Norm(spaced) != "" by { BlankNorm(); } }
    var longest := LongestUnclean(c.baseUrls);
    var k := Coordinators(c)[0];
    LongestIsGone(c, k, longest);
    answers := [answer];
    assert answers[..0] == [];
    assert Contacted(Coordinators(c), answer) == [k];
    assert Calls(c, answers) == Call(c, answer) == Activate(c, k);
    if SamePermutation(Activate(c, k).baseUrls, Normalize(urls)) {
      MembersOfPermutation(Activate(c, k).baseUrls, Normalize(urls));
    }
  }

  /** Where the list changes: "https://c/a /" is kept as "https://c/a ", contacted as "https://c/a",
      and replaced by that once it has answered. */
  lemma ListChanges(answer: string -> Answer)
    requires Success(answer("https://c/a"))
    ensures var c := New(["https://c/a /"]);
            && c.baseUrls == ["https://c/a "]
            && Coordinators(c) == Contacted(["https://c/a"], answer) == ["https://c/a"]
            && Call(c, answer) == Client("https://c/a", ["https://c/a"])
  {
    hide Norm, New, Contacted, Coordinators, Call, Success;
    ExampleForms();
    AnswerCleans("https://c/a /", "https://c/a ", "https://c/a", answer);
  }

  /** That URL can be the usable one. */
  lemma UsableExample()
    ensures LawfulUsable(u => u == "https://c/a") && !Stuck(u => u == "https://c/a", New(["https://c/a /"]))
  {
    hide Norm, New, Coordinators, Call, Contacted;
    ExampleForms();
    ListChanges(_ => Status(200));
  }

  lemma AnswerCleans(raw: string, kept: string, clean: string, answer: string -> Answer)
    requires Norm(raw) == kept != "" && Norm(kept) == clean != "" && Norm(clean) == clean && Success(answer(clean))
    ensures var c := New([raw]);
            && c.baseUrls == [kept]
            && Coordinators(c) == Contacted([clean], answer) == [clean]
            && Call(c, answer) == Client(clean, [clean])
  {
    hide Norm, Normalize;
    var c := New([raw]);
    OneForm(raw);
    TwoForms(kept, kept);
    TwoForms(clean, kept);
    assert Coordinators(c) == [clean];
    assert Contacted([clean], answer) == [clean];
  }

  lemma OneForm(raw: string)
    requires Norm(raw) != ""
    ensures Normalize([raw]) == [Norm(raw)]
  {
    hide Norm;
    assert FirstForms([raw][..0], Norm) == [];
  }

  lemma TwoForms(a: string, b: string)
    requires Norm(a) == Norm(b) != ""
    ensures Normalize([a] + [b]) == [Norm(a)]
  {
    hide Norm;
    OneForm(a);
    assert ([a] + [b])[..1] == [a];
  }

  lemma ExampleForms()
    ensures Norm("https://c/a /") == "https://c/a " && Norm("https://c/a ") == "https://c/a" && Norm("https://c/a") == "https://c/a"
  {
    hide TrimSpace;
    var clean, kept, raw := "https://c/a", "https://c/a ", "https://c/a /";
    TrimLastSpace(clean);
    assert clean + " " == kept;
    TrimSpaceIdempotent(raw);
    TrimSpaceIdempotent(clean);
    assert raw[..12] == kept;
  }
}
