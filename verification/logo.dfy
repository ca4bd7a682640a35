/**
 * Favicon selection (`getLogo`): the `<link>` elements of the document head
 * are visited in order, and each one whose `rel` equals "shortcut icon"
 * ignoring case sets the logo to its `href`; later matches overwrite earlier
 * ones.
 */
module Logo {
  import opened Strings
  import opened Seqs

  const LogoNotFound: string := "logo not found"
  const ShortcutIcon: string := "shortcut icon"

  /** A `<link>` element's attributes; an absent attribute reads as "". */
  datatype Link = Link(rel: string, href: string)

  predicate IsShortcutIcon(link: Link) {
    EqualFold(link.rel, ShortcutIcon)
  }

  /** The callback run for each link, given the logo so far. */
  function Visit(logo: string, link: Link): string {
    if IsShortcutIcon(link) then link.href else logo
  }

  /** The visits over `links` in document order, starting from `logo`. */
  function VisitAll(logo: string, links: seq<Link>): string
    decreases |links|
  {
    if links == [] then logo else VisitAll(Visit(logo, links[0]), links[1..])
  }

  /** `getLogo` on the links of a fetched head; a failed fetch has no links. */
  function SelectLogo(links: seq<Link>): string {
    VisitAll(LogoNotFound, links)
  }

  /** Last match wins; with no match the starting logo stays. */
  lemma {:induction false} VisitAllLastMatch(logo: string, links: seq<Link>)
    ensures NoMatch(links, IsShortcutIcon) ==> VisitAll(logo, links) == logo
    ensures forall i :: LastMatch(links, IsShortcutIcon, i) ==> VisitAll(logo, links) == links[i].href
    decreases |links|
  {
    if links != [] {
      var rest := links[1..];
      VisitAllLastMatch(Visit(logo, links[0]), rest);
      forall i | LastMatch(links, IsShortcutIcon, i)
        ensures VisitAll(logo, links) == links[i].href
      {
        if i > 0 {
          assert LastMatch(rest, IsShortcutIcon, i - 1);
        }
      }
    }
  }

  /**
   * The selected logo: "logo not found" when no link is a shortcut icon,
   * otherwise the `href` of the last one.
   */
  lemma SelectLogoResult(links: seq<Link>)
    ensures NoMatch(links, IsShortcutIcon) ==> SelectLogo(links) == LogoNotFound
    ensures !NoMatch(links, IsShortcutIcon) ==>
      exists i :: LastMatch(links, IsShortcutIcon, i) && SelectLogo(links) == links[i].href
  {
    VisitAllLastMatch(LogoNotFound, links);
    if !NoMatch(links, IsShortcutIcon) {
      LastMatchExists(links, IsShortcutIcon);
    }
  }

  /** A link that is not a shortcut icon leaves the logo as it was. */
  lemma VisitIgnoresOtherLinks(logo: string, links: seq<Link>, other: Link)
    requires !IsShortcutIcon(other)
    ensures VisitAll(logo, links + [other]) == VisitAll(logo, links)
  {
    VisitAllLastMatch(logo, links);
    VisitAllLastMatch(logo, links + [other]);
    if !NoMatch(links, IsShortcutIcon) {
      LastMatchExists(links, IsShortcutIcon);
      var i :| LastMatch(links, IsShortcutIcon, i);
      assert LastMatch(links + [other], IsShortcutIcon, i);
    } else {
      assert NoMatch(links + [other], IsShortcutIcon) by {
        forall i | 0 <= i < |links + [other]| ensures !IsShortcutIcon((links + [other])[i]) {
          if i < |links| { assert (links + [other])[i] == links[i]; }
        }
      }
    }
  }

  /** The comparison ignores case: "Shortcut Icon" matches. */
  lemma MixedCaseMatches()
    ensures IsShortcutIcon(Link("Shortcut Icon", "/favicon.ico"))
  {
    var rel := "Shortcut Icon";
    assert FoldChar(rel[0]) == 's' && FoldChar(rel[9]) == 'i';
  }

  /** Unicode simple folding: LATIN SMALL LETTER LONG S folds to 's'. */
  lemma LongSMatches()
    ensures IsShortcutIcon(Link("\U{017F}hortcut icon", "/favicon.ico"))
  {
    var rel := "\U{017F}hortcut icon";
    assert FoldChar(rel[0]) == 's';
  }

  /** A different or absent `rel` does not match. */
  lemma OtherRelDoesNotMatch()
    ensures !IsShortcutIcon(Link("icon", "/favicon.ico"))
    ensures !IsShortcutIcon(Link("", ""))
  {
  }
}
