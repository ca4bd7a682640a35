/**
 * WHOIS response parsing (`whoisIP`): the response text is scanned line by
 * line; a line whose lower-cased text contains "orgname" sets the owner and
 * one containing "country" sets the country, each to the trimmed second
 * `:`-separated field of the line. Later lines overwrite earlier ones.
 */
module Whois {
  import opened Wrappers
  import opened Strings
  import opened Lines
  import opened Seqs

  const OwnerNotFound: string := "owner not found"
  const CountryNotFound: string := "country not found"

  /** The pair `whoisIP` returns, country first. */
  datatype WhoisInfo = WhoisInfo(country: string, owner: string)

  const Defaults: WhoisInfo := WhoisInfo(CountryNotFound, OwnerNotFound)

  predicate IsOwnerLine(line: string) {
    Contains(ToLower(line), "orgname")
  }

  predicate IsCountryLine(line: string) {
    Contains(ToLower(line), "country")
  }

  /** The owner test is a case-blind search for "orgname" in the line. */
  lemma OwnerLineIgnoresCase(line: string)
    ensures IsOwnerLine(line) <==> exists k :: OccursIgnoringCaseAt(line, "orgname", k)
  {
    ContainsIgnoringCase(line, "orgname");
  }

  /** The country test is a case-blind search for "country" in the line. */
  lemma CountryLineIgnoresCase(line: string)
    ensures IsCountryLine(line) <==> exists k :: OccursIgnoringCaseAt(line, "country", k)
  {
    ContainsIgnoringCase(line, "country");
  }

  /**
   * A line the loop gets through: a matching line must have a second
   * `:`-separated field, or indexing it panics.
   */
  predicate Parsable(line: string) {
    (IsOwnerLine(line) || IsCountryLine(line)) ==> ':' in line
  }

  predicate AllParsable(lines: seq<string>) {
    forall i :: 0 <= i < |lines| ==> Parsable(lines[i])
  }

  /** The value a matching line carries: its second `:`-separated field, trimmed. */
  function FieldValue(line: string): (v: string)
    requires ':' in line
    ensures ':' !in v
    ensures |v| == 0 || (!IsSpace(v[0]) && !IsSpace(v[|v| - 1]))
  {
    TrimSpace(Split(line, ':')[1])
  }

  /** One iteration of the scanning loop. */
  function Step(info: WhoisInfo, line: string): WhoisInfo
    requires Parsable(line)
  {
    var afterOwner := if IsOwnerLine(line) then info.(owner := FieldValue(line)) else info;
    if IsCountryLine(line) then afterOwner.(country := FieldValue(line)) else afterOwner
  }

  /** The scanning loop over `lines`, starting from `info`. */
  function ParseLines(info: WhoisInfo, lines: seq<string>): WhoisInfo
    requires AllParsable(lines)
    decreases |lines|
  {
    if lines == [] then info else ParseLines(Step(info, lines[0]), lines[1..])
  }

  /** The parse of a lookup's lines; a failed lookup keeps both defaults. */
  function ParseWhois(lookup: Option<seq<string>>): WhoisInfo
    requires lookup.Some? ==> AllParsable(lookup.value)
  {
    match lookup
    case None => Defaults
    case Some(lines) => ParseLines(Defaults, lines)
  }

  /** A lookup result `whoisIP` gets through without panicking. */
  predicate WhoisParsable(result: Option<string>) {
    result.Some? ==> AllParsable(ScanLines(result.value))
  }

  /** `whoisIP`, given what `whois.Whois` returned: the text, or None for an error. */
  function WhoisIP(result: Option<string>): WhoisInfo
    requires WhoisParsable(result)
  {
    match result
    case None => ParseWhois(None)
    case Some(text) => ParseWhois(Some(ScanLines(text)))
  }

  /**
   * Last match wins: the owner is the field of the last owner line, or
   * unchanged when there is none; likewise and independently the country.
   */
  lemma {:induction false} ParseLinesLastMatch(info: WhoisInfo, lines: seq<string>)
    requires AllParsable(lines)
    ensures NoMatch(lines, IsOwnerLine) ==> ParseLines(info, lines).owner == info.owner
    ensures forall i :: LastMatch(lines, IsOwnerLine, i) ==> ParseLines(info, lines).owner == FieldValue(lines[i])
    ensures NoMatch(lines, IsCountryLine) ==> ParseLines(info, lines).country == info.country
    ensures forall i :: LastMatch(lines, IsCountryLine, i) ==> ParseLines(info, lines).country == FieldValue(lines[i])
    decreases |lines|
  {
    if lines != [] {
      var rest := lines[1..];
      var next := Step(info, lines[0]);
      assert AllParsable(rest);
      ParseLinesLastMatch(next, rest);
      assert ParseLines(info, lines) == ParseLines(next, rest);
      forall i | LastMatch(lines, IsOwnerLine, i)
        ensures ParseLines(info, lines).owner == FieldValue(lines[i])
      {
        if i > 0 {
          assert LastMatch(rest, IsOwnerLine, i - 1);
        } else {
          assert NoMatch(rest, IsOwnerLine);
        }
      }
      forall i | LastMatch(lines, IsCountryLine, i)
        ensures ParseLines(info, lines).country == FieldValue(lines[i])
      {
        if i > 0 {
          assert LastMatch(rest, IsCountryLine, i - 1);
        } else {
          assert NoMatch(rest, IsCountryLine);
        }
      }
    }
  }

  /**
   * The whole WHOIS rule: a failed lookup gives both defaults; otherwise
   * each field is the value of the last line matching it, or its default.
   */
  lemma WhoisIPResult(result: Option<string>)
    requires WhoisParsable(result)
    ensures result.None? ==> WhoisIP(result) == WhoisInfo(CountryNotFound, OwnerNotFound)
    ensures result.Some? ==>
      var lines := ScanLines(result.value);
      && (NoMatch(lines, IsOwnerLine) ==> WhoisIP(result).owner == OwnerNotFound)
      && (NoMatch(lines, IsCountryLine) ==> WhoisIP(result).country == CountryNotFound)
      && (forall i :: LastMatch(lines, IsOwnerLine, i) ==> WhoisIP(result).owner == FieldValue(lines[i]))
      && (forall i :: LastMatch(lines, IsCountryLine, i) ==> WhoisIP(result).country == FieldValue(lines[i]))
  {
    if result.Some? {
      ParseLinesLastMatch(Defaults, ScanLines(result.value));
    }
  }

  /** "OrgName: a: b" is an owner line: lower-cased, it starts with "orgname". */
  lemma OwnerLineExample()
    ensures IsOwnerLine("OrgName: a: b")
  {
    var lowered := ToLower("OrgName: a: b");
    assert lowered[..7] == "orgname";
  }

  lemma SplitExample()
    ensures Split("OrgName: a: b", ':') == ["OrgName", " a", " b"]
  {
    var parts := ["OrgName", " a", " b"];
    assert Join(parts[2..], ':') == " b";
    assert Join(parts[1..], ':') == " a: b";
    assert Join(parts, ':') == "OrgName: a: b";
    SplitJoin(parts, ':');
  }

  lemma TrimExample()
    ensures TrimSpace(" a") == "a"
  {
    var s := " a";
    assert IsSpace(s[0]) && s[1..] == "a" && !IsSpace('a');
    assert TrimLeft("a") == "a";
    assert TrimLeft(s) == "a";
    assert TrimRight("a") == "a";
  }

  /** Only the second field is kept: "OrgName: a: b" gives "a". */
  lemma FieldValueExample()
    ensures FieldValue("OrgName: a: b") == "a"
  {
    SplitExample();
    TrimExample();
  }
}
