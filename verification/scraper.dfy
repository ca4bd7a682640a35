/**
 * Snapshot assembly (`WebScraper`): each endpoint of the TLS scan becomes a
 * `Server` enriched with its WHOIS country and owner, the endpoint grades
 * are aggregated into one grade, and the page is reported down exactly when
 * the scan status is "ERROR".
 */
module Scraper {
  import opened Wrappers
  import opened Strings
  import opened Grades
  import opened Whois
  import opened Logo

  /** One entry of the scan's `endpoints` list, already decoded. */
  datatype Endpoint = Endpoint(ipAddress: string, grade: string)

  /** The scan provider's answer: top-level status, host and endpoints. */
  datatype ScanReport = ScanReport(status: string, host: string, endpoints: seq<Endpoint>)

  datatype Server = Server(address: string, sslGrade: string, country: string, owner: string)

  /** The response record. */
  datatype WebPage = WebPage(
    servers: seq<Server>,
    serversChanged: bool,
    sslGrade: string,
    previousSslGrade: string,
    logo: string,
    title: string,
    isDown: bool)

  /** The scan status that marks the site as down. */
  const DownStatus: string := "ERROR"

  /** WHOIS lookup results for every endpoint address get through `whoisIP`. */
  predicate LookupsParsable(endpoints: seq<Endpoint>, whois: string -> Option<string>) {
    forall i :: 0 <= i < |endpoints| ==> WhoisParsable(whois(endpoints[i].ipAddress))
  }

  /** The grades of the endpoints, in endpoint order. */
  function EndpointGrades(endpoints: seq<Endpoint>): seq<string> {
    seq(|endpoints|, i requires 0 <= i < |endpoints| => endpoints[i].grade)
  }

  /** A list holding the i-th endpoint's grade at each index i is the endpoints' grade list. */
  lemma GradesOfEndpoints(endpoints: seq<Endpoint>, grades: seq<string>)
    requires |grades| == |endpoints|
    requires forall k :: 0 <= k < |endpoints| ==> grades[k] == endpoints[k].grade
    ensures grades == EndpointGrades(endpoints)
  {
  }

  /**
   * `WebScraper` once the scan has been fetched and decoded: `whois` stands
   * for the WHOIS network lookup, and `title` and `links` for what the page
   * fetch of the host found.
   */
  method WebScraper(report: ScanReport, whois: string -> Option<string>, title: string, links: seq<Link>)
    returns (page: WebPage)
    requires LookupsParsable(report.endpoints, whois)
    ensures |page.servers| == |report.endpoints|
    ensures forall i :: 0 <= i < |page.servers| ==>
      && page.servers[i].address == report.endpoints[i].ipAddress
      && page.servers[i].sslGrade == report.endpoints[i].grade
      && page.servers[i].country == WhoisIP(whois(report.endpoints[i].ipAddress)).country
      && page.servers[i].owner == WhoisIP(whois(report.endpoints[i].ipAddress)).owner
    ensures (forall i :: 0 <= i < |report.endpoints| ==> report.endpoints[i].grade == "") ==>
      page.sslGrade == NotFound
    ensures (exists i :: 0 <= i < |report.endpoints| && report.endpoints[i].grade != "") ==>
      && page.sslGrade != ""
      && (exists i :: 0 <= i < |report.endpoints| && page.sslGrade == report.endpoints[i].grade)
      && (forall i :: 0 <= i < |report.endpoints| ==> LexLe(report.endpoints[i].grade, page.sslGrade))
    ensures page.isDown <==> report.status == DownStatus
    ensures page.logo == SelectLogo(links) && page.title == title
    ensures !page.serversChanged && page.previousSslGrade == ""
  {
    var endpoints := report.endpoints;
    var serverItems: seq<Server> := [];
    var grades: seq<string> := [];
    var index := 0;
    while index < |endpoints|
      invariant 0 <= index <= |endpoints|
      invariant |serverItems| == index && |grades| == index
      invariant forall k :: 0 <= k < index ==>
        && serverItems[k].address == endpoints[k].ipAddress
        && serverItems[k].sslGrade == endpoints[k].grade
        && serverItems[k].country == WhoisIP(whois(endpoints[k].ipAddress)).country
        && serverItems[k].owner == WhoisIP(whois(endpoints[k].ipAddress)).owner
      invariant forall k :: 0 <= k < index ==> grades[k] == endpoints[k].grade
    {
      var endpoint := endpoints[index];
      var info := WhoisIP(whois(endpoint.ipAddress));
      var server := Server(endpoint.ipAddress, endpoint.grade, info.country, info.owner);
      serverItems := serverItems + [server];
      grades := grades + [endpoint.grade];
      index := index + 1;
    }

    var isDown := false;
    if report.status == DownStatus {
      isDown := true;
    }

    var logo := SelectLogo(links);

    GradesOfEndpoints(endpoints, grades);
    var totalGrade := AggregateGrade(grades);
    EndpointGradeIsMax(endpoints);

    page := WebPage(serverItems, false, totalGrade, "", logo, title, isDown);
  }

  /**
   * The aggregate grade of the endpoints: "not found" when every grade is
   * empty (or there are none), otherwise a non-empty grade of some endpoint
   * that no endpoint's grade exceeds.
   */
  lemma EndpointGradeIsMax(endpoints: seq<Endpoint>)
    ensures (forall i :: 0 <= i < |endpoints| ==> endpoints[i].grade == "") ==>
      AggregateGrade(EndpointGrades(endpoints)) == NotFound
    ensures (exists i :: 0 <= i < |endpoints| && endpoints[i].grade != "") ==>
      var total := AggregateGrade(EndpointGrades(endpoints));
      && total != ""
      && (exists i :: 0 <= i < |endpoints| && total == endpoints[i].grade)
      && (forall i :: 0 <= i < |endpoints| ==> LexLe(endpoints[i].grade, total))
  {
    var grades := EndpointGrades(endpoints);
    var total := AggregateGrade(grades);
    if exists i :: 0 <= i < |endpoints| && endpoints[i].grade != "" {
      var i :| 0 <= i < |endpoints| && endpoints[i].grade != "";
      assert grades[i] in grades;
      var j :| 0 <= j < |grades| && grades[j] == total;
      assert total == endpoints[j].grade;
      forall k | 0 <= k < |endpoints|
        ensures LexLe(endpoints[k].grade, total)
      {
        assert grades[k] in grades;
      }
    } else {
      assert forall g :: g in grades ==> g == "";
    }
  }

  /** Reordering the endpoints does not change the aggregate grade. */
  lemma AggregateGradeIgnoresEndpointOrder(a: seq<Endpoint>, b: seq<Endpoint>)
    requires multiset(a) == multiset(b)
    ensures AggregateGrade(EndpointGrades(a)) == AggregateGrade(EndpointGrades(b))
  {
    var ga, gb := EndpointGrades(a), EndpointGrades(b);
    forall g
      ensures g in ga <==> g in gb
    {
      if g in ga {
        var i :| 0 <= i < |a| && ga[i] == g;
        assert a[i] in multiset(b);
        var j :| 0 <= j < |b| && b[j] == a[i];
        assert gb[j] == g;
      }
      if g in gb {
        var j :| 0 <= j < |b| && gb[j] == g;
        assert b[j] in multiset(a);
        var i :| 0 <= i < |a| && a[i] == b[j];
        assert ga[i] == g;
      }
    }
    AggregateGradeDependsOnSetOnly(ga, gb);
  }
}
