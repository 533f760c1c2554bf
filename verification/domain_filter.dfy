/** The search-domain filter both search handlers derive from the request's `webSource`
    and `customWebs` fields. */
module DomainFilter {
  import opened Wrappers
  import opened Text
  import opened Types

  /** Every piece trimmed, in order */
  function TrimAll(pieces: seq<string>): (r: seq<string>)
    ensures |r| == |pieces|
    ensures forall i :: 0 <= i < |r| ==> r[i] == Trim(pieces[i])
  {
    seq(|pieces|, i requires 0 <= i < |pieces| => Trim(pieces[i]))
  }

  /** The list of domains the search is restricted to; empty means unrestricted */
  function Domains(webSource: string, customWebs: Option<string>): (r: seq<string>)
    ensures webSource == "boe" ==> r == ["boe.es"]
    ensures webSource == "borne" ==> r == ["borne.gov.uk"]
    ensures webSource == "custom" && Truthy(customWebs) ==>
      && |r| == Count(customWebs.value, ',') + 1
      && (forall i :: 0 <= i < |r| ==> r[i] == Trim(Split(customWebs.value, ',')[i]))
      && (forall i :: 0 <= i < |r| ==> Trimmed(r[i]) && ',' !in r[i])
    ensures webSource != "boe" && webSource != "borne" && !(webSource == "custom" && Truthy(customWebs))
      ==> r == []
  {
    if webSource == "boe" then ["boe.es"]
    else if webSource == "borne" then ["borne.gov.uk"]
    else if webSource == "custom" && Truthy(customWebs) then TrimAll(Split(customWebs.value, ','))
    else []
  }

  /** Trimming pieces that are already trimmed changes nothing. */
  lemma TrimAllOfTrimmed(ds: seq<string>)
    requires forall i :: 0 <= i < |ds| ==> Trimmed(ds[i])
    ensures TrimAll(ds) == ds
  {
    var r := TrimAll(ds);
    forall i | 0 <= i < |ds|
      ensures r[i] == ds[i]
    {
      assert [] + ds[i] + [] == ds[i];
      TrimPadded([], ds[i], []);
    }
  }

  /** A comma-separated list of trimmed domains is read back as exactly those domains. */
  lemma CustomDomainsRoundTrip(ds: seq<string>)
    requires |ds| > 0
    requires forall i :: 0 <= i < |ds| ==> Trimmed(ds[i]) && ',' !in ds[i]
    requires Join(ds, ',') != []
    ensures Domains("custom", Some(Join(ds, ','))) == ds
  {
    var s := Join(ds, ',');
    SplitJoin(ds, ',');
    TrimAllOfTrimmed(ds);
    assert Domains("custom", Some(s)) == TrimAll(Split(s, ','));
  }

  /** The choices the form offers map onto the handlers' filters. */
  lemma FormChoiceDomains(w: WebSource, customWebs: string)
    ensures w == AllWebs ==> Domains(WebSourceName(w), Some(customWebs)) == []
    ensures w == CustomWebs && customWebs == [] ==> Domains(WebSourceName(w), Some(customWebs)) == []
    ensures w == CustomWebs && customWebs != [] ==> |Domains(WebSourceName(w), Some(customWebs))| > 0
  {
  }
}
