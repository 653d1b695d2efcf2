/** Following a paged listing: the URL of the next page, read from the Link header (GetNextLink). */
module Pagination {
  import opened Outcomes
  import opened Linq
  import opened Text

  /** The relation that marks the entry of the next page. */
  const RelNext: string := "rel=\"next\""

  /** The characters `Trim` removes from both ends of the URL part of an entry. */
  const AngleBrackets: set<char> := {'<', '>'}

  /** The `FirstOrDefault` predicate: the entry names the next page. */
  function NamesNextPage(entry: string): bool
  {
    Contains(entry, RelNext)
  }

  /**
   * GetNextLink on a present Link header: the first comma-separated entry naming the next
   * page, cut at its first `;`, with angle brackets trimmed off both ends; None, which
   * stops the paging loop, when no entry names the next page.
   */
  function GetNextLink(linkHeader: string): (link: Option<string>)
    ensures link.Some? ==> ';' !in link.value
    ensures link.Some? && |link.value| > 0 ==>
              link.value[0] !in AngleBrackets && link.value[|link.value| - 1] !in AngleBrackets
  {
    match FirstOrDefault(Split(linkHeader, ','), NamesNextPage)
    case None => None
    case Some(entry) =>
      var url := Split(entry, ';')[0];
      Some(Trim(url, AngleBrackets))
  }

  /** Entry `k` is the first of `entries` that names the next page. */
  ghost predicate IsFirstNextEntry(entries: seq<string>, k: int)
  {
    && 0 <= k < |entries|
    && NamesNextPage(entries[k])
    && forall j :: 0 <= j < k ==> !NamesNextPage(entries[j])
  }

  /** The link is read off the first entry that `FirstOrDefault` picks, if any. */
  lemma NextLinkOfPickedEntry(linkHeader: string)
    ensures var picked := FirstOrDefault(Split(linkHeader, ','), NamesNextPage);
      && (GetNextLink(linkHeader).None? <==> picked.None?)
      && (picked.Some? ==> GetNextLink(linkHeader) == Some(Trim(Split(picked.value, ';')[0], AngleBrackets)))
  {
  }

  /** `FirstOrDefault` over the entries picks the first one that names the next page. */
  lemma PickedEntryIsFirstNext(entries: seq<string>)
    ensures var picked := FirstOrDefault(entries, NamesNextPage);
      && (picked.None? <==> forall k :: 0 <= k < |entries| ==> !NamesNextPage(entries[k]))
      && (picked.Some? ==> exists k :: IsFirstNextEntry(entries, k) && picked.value == entries[k])
  {
    var picked := FirstOrDefault(entries, NamesNextPage);
    if picked.Some? {
      var k :| 0 <= k < |entries| && entries[k] == picked.value && NamesNextPage(entries[k]) &&
               forall j :: 0 <= j < k ==> !NamesNextPage(entries[j]);
      assert IsFirstNextEntry(entries, k);
    }
  }

  /** There is no next link exactly when no entry of the header names the next page. */
  lemma NextLinkNoneIff(linkHeader: string)
    ensures var entries := Split(linkHeader, ',');
      GetNextLink(linkHeader).None? <==> forall k :: 0 <= k < |entries| ==> !NamesNextPage(entries[k])
  {
    NextLinkOfPickedEntry(linkHeader);
    PickedEntryIsFirstNext(Split(linkHeader, ','));
  }

  /**
   * A next link comes from the first entry that names the next page: it is that entry's
   * text before its first `;` (see Text.SplitFirst), trimmed of `<` and `>` at both
   * ends and nowhere else (see Text.Trim).
   */
  lemma NextLinkFromFirstNextEntry(linkHeader: string)
    requires GetNextLink(linkHeader).Some?
    ensures var entries := Split(linkHeader, ',');
      exists k :: IsFirstNextEntry(entries, k) &&
                  GetNextLink(linkHeader) == Some(Trim(Split(entries[k], ';')[0], AngleBrackets))
  {
    NextLinkOfPickedEntry(linkHeader);
    PickedEntryIsFirstNext(Split(linkHeader, ','));
  }

  /** A header of two entries splits into those two. */
  lemma SplitTwoEntries(first: string, second: string)
    requires ',' !in first && ',' !in second
    ensures Split(first + [','] + second, ',') == [first, second]
  {
    assert Join([first, second], ',') == first + [','] + second;
    SplitJoin([first, second], ',');
  }

  /** The text of an entry before its `;`. */
  lemma SplitAtSemicolon(url: string, rest: string)
    requires ';' !in url
    ensures Split(url + [';'] + rest, ';')[0] == url
  {
    SplitFreePrefix(url, [';'] + rest, ';');
    assert url + ([';'] + rest) == url + [';'] + rest;
    assert Split([';'] + rest, ';')[0] == "";
    assert url + "" == url;
  }

  /** Of two entries, only the second naming the next page, the second is picked. */
  lemma PickSecond(first: string, second: string)
    requires !Contains(first, RelNext) && Contains(second, RelNext)
    ensures FirstOrDefault([first, second], NamesNextPage) == Some(second)
  {
    PickedEntryIsFirstNext([first, second]);
    assert !IsFirstNextEntry([first, second], 0);
  }

  /** The link of a header with two entries, the second naming the next page. */
  lemma SecondEntryNext(first: string, second: string, url: string, rest: string)
    requires ',' !in first && ',' !in second && ';' !in url
    requires !Contains(first, RelNext) && second == url + [';'] + rest && Contains(second, RelNext)
    ensures GetNextLink(first + [','] + second) == Some(Trim(url, AngleBrackets))
  {
    SplitTwoEntries(first, second);
    PickSecond(first, second);
    NextLinkOfPickedEntry(first + [','] + second);
    SplitAtSemicolon(url, rest);
  }

  /** The tail `; rel="next"` of an entry: no comma in it, and it names the next page. */
  lemma NextTail()
    ensures ',' !in "; " + RelNext && "; " + RelNext == [';'] + (" " + RelNext)
    ensures Contains("; " + RelNext, RelNext)
  {
    assert ("; " + RelNext)[2..] == RelNext;
    assert OccursAt("; " + RelNext, RelNext, 2);
  }

  /** An entry ending in `; rel="next"` names the next page. */
  lemma EntryNamesNext(lead: string)
    ensures Contains(lead + "; " + RelNext, RelNext)
  {
    NextTail();
    var j :| OccursAt("; " + RelNext, RelNext, j);
    var entry := lead + "; " + RelNext;
    assert entry[|lead|..] == "; " + RelNext;
    assert entry[|lead| + j..|lead| + j + |RelNext|] == ("; " + RelNext)[j..j + |RelNext|];
    assert OccursAt(entry, RelNext, |lead| + j);
  }

  /**
   * A header whose second entry is `lead; rel="next"`, the first not naming the next
   * page, yields `lead` trimmed of angle brackets.
   */
  lemma NextEntryLink(first: string, lead: string)
    requires ',' !in first && !Contains(first, RelNext)
    requires ',' !in lead && ';' !in lead
    ensures GetNextLink(first + [','] + (lead + "; " + RelNext)) == Some(Trim(lead, AngleBrackets))
  {
    EntryShape(lead);
    SecondEntryNext(first, lead + "; " + RelNext, lead, " " + RelNext);
  }

  /** The facts about an entry `lead; rel="next"` that picking it needs. */
  lemma EntryShape(lead: string)
    requires ',' !in lead
    ensures var entry := lead + "; " + RelNext;
      ',' !in entry && entry == lead + [';'] + (" " + RelNext) && Contains(entry, RelNext)
  {
    NextTail();
    EntryNamesNext(lead);
    assert lead + "; " + RelNext == lead + ([';'] + (" " + RelNext));
  }

  /** How a header with a second entry built from `lead` associates. */
  lemma HeaderShape(first: string, lead: string, url: string)
    requires lead == "<" || lead == " <"
    ensures first + "," + lead + url + ">; " + RelNext == first + [','] + ((lead + url + ">") + "; " + RelNext)
  {
    assert ">; " + RelNext == ">" + ("; " + RelNext);
    assert first + "," + lead + url == first + [','] + (lead + url);
  }

  /** A separator outside `url` is outside `lead + url + ">"` too. */
  lemma OutsideLead(lead: string, url: string, c: char)
    requires lead == "<" || lead == " <"
    requires c !in url && (c == ',' || c == ';')
    ensures c !in lead + url + ">"
  {
  }

  /**
   * A header whose second entry is `<url>; rel="next"` yields `url` itself, when `url`
   * does not start or end with an angle bracket.
   */
  lemma BracketedNextUrl(first: string, url: string)
    requires ',' !in first && !Contains(first, RelNext)
    requires ',' !in url && ';' !in url && |url| > 0
    requires url[0] !in AngleBrackets && url[|url| - 1] !in AngleBrackets
    ensures GetNextLink(first + "," + "<" + url + ">; " + RelNext) == Some(url)
  {
    HeaderShape(first, "<", url);
    OutsideLead("<", url, ',');
    OutsideLead("<", url, ';');
    NextEntryLink(first, "<" + url + ">");
    TrimBracketed(url);
  }

  /** Trimming `<url>` gives `url` when `url` has no bracket at either end. */
  lemma TrimBracketed(url: string)
    requires |url| > 0 && url[0] !in AngleBrackets && url[|url| - 1] !in AngleBrackets
    ensures Trim("<" + url + ">", AngleBrackets) == url
  {
    var bracketed := "<" + url + ">";
    assert bracketed[1..] == url + ">";
    assert TrimStart(url + ">", AngleBrackets) == url + ">";
    assert (url + ">")[..|url|] == url;
    assert TrimEnd(url, AngleBrackets) == url;
  }

  /**
   * A space after the comma is not trimmed, so the link of `, <url>; rel="next"` keeps
   * the space and the opening bracket.
   */
  lemma SpaceAfterCommaKeepsBracket(first: string, url: string)
    requires ',' !in first && !Contains(first, RelNext)
    requires ',' !in url && ';' !in url && |url| > 0 && url[|url| - 1] !in AngleBrackets
    ensures GetNextLink(first + "," + " <" + url + ">; " + RelNext) == Some(" <" + url)
  {
    HeaderShape(first, " <", url);
    OutsideLead(" <", url, ',');
    OutsideLead(" <", url, ';');
    NextEntryLink(first, " <" + url + ">");
    TrimSpaced(url);
  }

  /** Trimming ` <url>` removes only the closing bracket. */
  lemma TrimSpaced(url: string)
    requires |url| > 0 && url[|url| - 1] !in AngleBrackets
    ensures Trim(" <" + url + ">", AngleBrackets) == " <" + url
  {
    var spaced := " <" + url + ">";
    assert TrimStart(spaced, AngleBrackets) == spaced;
    assert spaced[..|spaced| - 1] == " <" + url;
    assert TrimEnd(" <" + url, AngleBrackets) == " <" + url;
  }

  /** A header in which `rel="next"` does not occur ends the paging. */
  lemma NoNextRelationEndsPaging(linkHeader: string)
    requires !Contains(linkHeader, RelNext)
    ensures GetNextLink(linkHeader) == None
  {
    var entries := Split(linkHeader, ',');
    forall k | 0 <= k < |entries| ensures !NamesNextPage(entries[k]) {
      if Contains(entries[k], RelNext) {
        SplitPieceContained(linkHeader, ',', k, RelNext);
      }
    }
    NextLinkNoneIff(linkHeader);
  }
}
