/**
 * The dashboard page: the search box that shows or hides utility cards, the click handler
 * that reads a card's destination out of its `onclick` attribute, and the typing effect of
 * the subtitle.
 */
module Dashboard {
  import opened Wrappers
  import opened Text

  // ---------------------------------------------------------------------------
  // Search
  // ---------------------------------------------------------------------------

  /** Every string of a list lowercased, as `.map(tag => tag.textContent.toLowerCase())`. */
  function LowerAll(parts: seq<string>): (r: seq<string>)
    ensures |r| == |parts|
    ensures forall i :: 0 <= i < |parts| ==> r[i] == ToLower(parts[i])
  {
    if parts == [] then [] else [ToLower(parts[0])] + LowerAll(parts[1..])
  }

  /** The searchable text of a card, as `searchUtilities` reads it: the lowercased tags joined with ' '. */
  function TagText(tags: seq<string>): string {
    Join(LowerAll(tags), " ")
  }

  /**
   * The match rule of `searchUtilities`: the lowercased query occurs in the lowercased title,
   * in the lowercased description, or in the joined tag text.
   */
  predicate CardMatches(title: string, description: string, tags: seq<string>, query: string) {
    var term := ToLower(query);
    Contains(ToLower(title), term) || Contains(ToLower(description), term) || Contains(TagText(tags), term)
  }

  /** An empty query occurs everywhere, so it shows every card. */
  lemma EmptyQueryMatches(title: string, description: string, tags: seq<string>)
    ensures CardMatches(title, description, tags, "")
  {
    ContainsAt(ToLower(title), "", 0);
  }

  /** The search ignores case: a query and its lowercased form show the same cards. */
  lemma MatchIgnoresCase(title: string, description: string, tags: seq<string>, query: string)
    ensures CardMatches(title, description, tags, query) == CardMatches(title, description, tags, ToLower(query))
  {
    ToLowerIdempotent(query);
  }

  /** A card's own title, in any case, finds it. */
  lemma TitleFindsCard(title: string, description: string, tags: seq<string>)
    ensures CardMatches(title, description, tags, title)
  {
    assert ToLower(title)[0..|ToLower(title)|] == ToLower(title);
    ContainsAt(ToLower(title), ToLower(title), 0);
  }

  /**
   * Because the tags are joined before matching, a query made of two neighbouring tags with
   * the joining space between them finds the card, though neither tag contains it.
   */
  lemma AdjacentTagsMatch(title: string, description: string, tags: seq<string>, i: nat)
    requires i + 1 < |tags|
    ensures CardMatches(title, description, tags, tags[i] + " " + tags[i + 1])
  {
    var lower := LowerAll(tags);
    JoinAround(lower, i, " ");
    JoinEndsWithLast(lower[..i + 1], " ");
    JoinStartsWithFirst(lower[i + 1..], " ");
    ContainsAcross(Join(lower[..i + 1], " "), " ", Join(lower[i + 1..], " "), lower[i], lower[i + 1]);
    ToLowerAppend(tags[i], " ");
    ToLowerAppend(tags[i] + " ", tags[i + 1]);
    assert ToLower(" ") == " ";
  }

  /** A utility card: the text the search reads, and the display style it writes. */
  class UtilityCard {
    const title: string
    const description: string
    const tags: seq<string>
    var display: string

    constructor(title: string, description: string, tags: seq<string>)
      ensures this.title == title && this.description == description && this.tags == tags
      ensures display == ""
    {
      this.title := title;
      this.description := description;
      this.tags := tags;
      display := "";
    }

    predicate Matches(query: string)
      reads this
    {
      CardMatches(title, description, tags, query)
    }
  }

  /**
   * `searchUtilities`: every card is shown (`block`) exactly when it matches the query and is
   * hidden (`none`) otherwise. Each card's style depends on that card and the query only; the
   * card list itself is neither extended, shortened nor reordered.
   */
  method SearchUtilities(cards: seq<UtilityCard>, query: string)
    modifies set c | c in cards
    ensures forall i :: 0 <= i < |cards| ==> cards[i].display == if cards[i].Matches(query) then "block" else "none"
  {
    for i := 0 to |cards|
      invariant forall j :: 0 <= j < i ==> cards[j].display == if cards[j].Matches(query) then "block" else "none"
    {
      var card := cards[i];
      card.display := if card.Matches(query) then "block" else "none";
    }
  }

  // ---------------------------------------------------------------------------
  // Card click: the destination inside `onclick`
  // ---------------------------------------------------------------------------

  /** The first `'` at or after `from`, or -1. */
  function NextQuote(s: string, from: nat): (k: int)
    ensures k == -1 || (from <= k < |s| && s[k] == '\'')
    ensures k >= 0 ==> forall j :: from <= j < k ==> s[j] != '\''
    ensures k == -1 ==> forall j :: from <= j < |s| ==> s[j] != '\''
    decreases |s| - from
  {
    if from >= |s| then -1 else if s[from] == '\'' then from else NextQuote(s, from + 1)
  }

  /** `s[p..j + 1]` matches `'([^']+)'`: quotes at `p` and `j`, at least one char between, none of them a quote. */
  predicate IsQuotedRun(s: string, p: int, j: int) {
    0 <= p && p + 2 <= j < |s| && s[p] == '\'' && s[j] == '\''
    && forall k :: p < k < j ==> s[k] != '\''
  }

  /** Where the regular-expression search, started at `from`, finds its match: the ends of the leftmost quoted run. */
  function FirstQuotedRun(s: string, from: nat): (r: Option<(nat, nat)>)
    decreases |s| - from
  {
    if from >= |s| then None
    else if s[from] == '\'' && NextQuote(s, from + 1) > from + 1 then Some((from, NextQuote(s, from + 1) as nat))
    else FirstQuotedRun(s, from + 1)
  }

  /** A quoted run that starts at `p` ends at the first quote after `p`. */
  lemma RunEndsAtNextQuote(s: string, p: nat, j: int)
    requires p < |s| && s[p] == '\''
    ensures IsQuotedRun(s, p, j) <==> j == NextQuote(s, p + 1) && j > p + 1
  {
  }

  /**
   * The search finds the leftmost quoted run: what it returns is a quoted run, no run starts
   * earlier, and when it finds nothing there is no run at all from `from` on.
   */
  lemma {:induction false} FirstQuotedRunIsLeftmost(s: string, from: nat)
    ensures var r := FirstQuotedRun(s, from);
      && (r.Some? ==> from <= r.value.0 && IsQuotedRun(s, r.value.0, r.value.1))
      && (r.Some? ==> forall q, j :: from <= q < r.value.0 ==> !IsQuotedRun(s, q, j))
      && (r.None? ==> forall q, j :: from <= q ==> !IsQuotedRun(s, q, j))
    decreases |s| - from
  {
    if from < |s| {
      var found := s[from] == '\'' && NextQuote(s, from + 1) > from + 1;
      if s[from] == '\'' {
        forall j ensures IsQuotedRun(s, from, j) <==> j == NextQuote(s, from + 1) && j > from + 1 {
          RunEndsAtNextQuote(s, from, j);
        }
      }
      if !found {
        FirstQuotedRunIsLeftmost(s, from + 1);
      }
    }
  }

  /** `href.match(/'([^']+)'/)[1]`: the text of the leftmost quoted run; `None` where `match` gives `null`. */
  function OnclickUrl(href: string): (url: Option<string>)
    ensures url.Some? <==> FirstQuotedRun(href, 0).Some?
    ensures url.Some? ==> url.value != [] && forall i :: 0 <= i < |url.value| ==> url.value[i] != '\''
  {
    match FirstQuotedRun(href, 0)
    case None => None
    case Some(run) =>
      assert IsQuotedRun(href, run.0, run.1) by { FirstQuotedRunIsLeftmost(href, 0); }
      Some(href[run.0 + 1..run.1])
  }

  /** The URL is non-empty, holds no quote and sits between two quotes of `href`. */
  lemma OnclickUrlShape(href: string)
    ensures var url := OnclickUrl(href);
      && (url.Some? ==> url.value != [] && '\'' !in url.value)
      && (url.Some? ==> exists p :: 0 <= p && p + |url.value| + 1 < |href|
                          && href[p] == '\'' && href[p + 1..p + |url.value| + 1] == url.value && href[p + |url.value| + 1] == '\'')
      && (url.None? <==> forall q, j :: !IsQuotedRun(href, q, j))
  {
    FirstQuotedRunIsLeftmost(href, 0);
    var r := FirstQuotedRun(href, 0);
    if r.Some? {
      var p, j := r.value.0, r.value.1;
      var u := href[p + 1..j];
      assert |u| == j - p - 1;
      forall k | 0 <= k < |u| ensures u[k] != '\'' {
        assert u[k] == href[p + 1 + k];
      }
      assert href[p + 1..p + |u| + 1] == u;
    } else {
      forall q, j ensures !IsQuotedRun(href, q, j) {
        if q < 0 {
        }
      }
    }
  }

  /** What a click on a card does. */
  datatype ClickOutcome = NoNavigation | NavigateTo(url: string) | TypeError

  /**
   * The card click handler: a click on a button, or on a card without an `onclick` text, does
   * nothing; otherwise the browser goes to the URL, and the handler throws when there is no
   * quoted run to index.
   */
  function CardClick(onButton: bool, onclick: Option<string>): (o: ClickOutcome)
    ensures o.NavigateTo? ==> !onButton && onclick.Some? && OnclickUrl(onclick.value) == Some(o.url)
    ensures o == TypeError <==> !onButton && onclick.Some? && onclick.value != "" && OnclickUrl(onclick.value).None?
  {
    if onButton || onclick.None? || onclick.value == "" then NoNavigation
    else match OnclickUrl(onclick.value)
      case None => TypeError
      case Some(url) => NavigateTo(url)
  }

  // ---------------------------------------------------------------------------
  // Typing effect
  // ---------------------------------------------------------------------------

  /**
   * The subtitle being typed: the original text, the count `i` of characters typed so far,
   * and the text the subtitle currently shows.
   */
  class TypingEffect {
    const text: string
    var i: nat
    var shown: string

    /** The subtitle always shows the first `i` characters of the original text. */
    predicate Valid()
      reads this
    {
      i <= |text| && shown == text[..i]
    }

    /** `addTypingEffect`: the text is remembered and the subtitle emptied. */
    constructor(text: string)
      ensures this.text == text && i == 0 && shown == ""
      ensures Valid()
    {
      this.text := text;
      i := 0;
      shown := "";
    }

    /** One `typeWriter` call: while characters remain, the next one is appended. */
    method Step()
      requires Valid()
      modifies this
      ensures Valid()
      ensures i == if old(i) < |text| then old(i) + 1 else old(i)
      ensures shown == text[..i]
    {
      if i < |text| {
        assert text[..i + 1] == text[..i] + [text[i]];
        shown := shown + [text[i]];
        i := i + 1;
      }
    }

    /** After `k` timer ticks the subtitle shows the first `k` characters, and the whole text once `k` reaches its length. */
    method Run(k: nat)
      requires Valid() && i == 0
      modifies this
      ensures Valid()
      ensures i == if k < |text| then k else |text|
      ensures shown == text[..i]
    {
      for n := 0 to k
        invariant Valid()
        invariant i == if n < |text| then n else |text|
      {
        Step();
      }
    }
  }
}
