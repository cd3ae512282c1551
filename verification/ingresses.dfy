/**
 * The ingress lister of internal/k8s.go: projects cluster ingress objects into
 * display records, drops hidden ones and ones without a URL, and sorts by name.
 * The cluster's List call is replaced by its outcome, given as an input.
 */
module Ingresses {
  import opened Wrappers
  import Lex
  import opened Sorting

  /** Annotation key that hides an ingress from the homepage when its value is exactly "true". */
  const HideAnnotation: string := "gohome.stringer.sh/hide"

  /** networkingv1.HTTPIngressPath, reduced to the path it routes. */
  datatype HTTPIngressPath = HTTPIngressPath(path: string)

  /** networkingv1.HTTPIngressRuleValue: the HTTP paths of one rule. */
  datatype HTTPIngressRuleValue = HTTPIngressRuleValue(paths: seq<HTTPIngressPath>)

  /** networkingv1.IngressRule: a host and an optional (nil-able) HTTP block. */
  datatype IngressRule = IngressRule(host: string, http: Option<HTTPIngressRuleValue>)

  /** networkingv1.IngressTLS, reduced to the hosts the certificate covers. */
  datatype IngressTLS = IngressTLS(hosts: seq<string>)

  /** networkingv1.Ingress, reduced to the fields the lister reads. */
  datatype Ingress = Ingress(
    name: string,
    namespace: string,
    annotations: map<string, string>,
    rules: seq<IngressRule>,
    tls: seq<IngressTLS>)

  /** IngressInfo: the simplified ingress shown on the page. */
  datatype IngressInfo = IngressInfo(name: string, namespace: string, host: string, path: string, url: string)

  /** A missing annotation reads as "" in Go, so only a present, exactly-"true" value hides. */
  predicate Hidden(ing: Ingress) {
    HideAnnotation in ing.annotations && ing.annotations[HideAnnotation] == "true"
  }

  /** Some host of the list equals `host`. */
  function ListsHost(hosts: seq<string>, host: string): (r: bool)
    ensures r <==> exists j :: 0 <= j < |hosts| && hosts[j] == host
  {
    if |hosts| == 0 then false
    else hosts[0] == host || ListsHost(hosts[1..], host)
  }

  /** Some TLS entry lists `host`; the nested scan of extractIngressInfo. */
  function TlsCovers(tls: seq<IngressTLS>, host: string): (r: bool)
    ensures r <==> exists i, j :: 0 <= i < |tls| && 0 <= j < |tls[i].hosts| && tls[i].hosts[j] == host
  {
    if |tls| == 0 then false
    else
      var here := ListsHost(tls[0].hosts, host);
      var later := TlsCovers(tls[1..], host);
      assert later ==> exists i, j :: 1 <= i < |tls| && 0 <= j < |tls[i].hosts| && tls[i].hosts[j] == host by {
        if later {
          var i, j :| 0 <= i < |tls[1..]| && 0 <= j < |tls[1..][i].hosts| && tls[1..][i].hosts[j] == host;
          assert tls[i + 1] == tls[1..][i];
        }
      }
      here || later
  }

  /** "https" when a TLS entry covers `host`, otherwise "http". */
  function Protocol(tls: seq<IngressTLS>, host: string): string {
    if TlsCovers(tls, host) then "https" else "http"
  }

  /** The first HTTP path of a rule, or "" when the HTTP block is nil or has no paths. */
  function FirstPath(rule: IngressRule): string {
    match rule.http
    case Some(v) => if |v.paths| > 0 then v.paths[0].path else ""
    case None => ""
  }

  /** extractIngressInfo: host and path from the first rule only; URL only when that host is non-empty. */
  function ExtractIngressInfo(ing: Ingress): (info: IngressInfo)
    ensures info.name == ing.name && info.namespace == ing.namespace
    ensures |ing.rules| == 0 ==> info.host == "" && info.path == "" && info.url == ""
    ensures |ing.rules| > 0 ==> info.host == ing.rules[0].host && info.path == FirstPath(ing.rules[0])
    ensures info.url != "" <==> |ing.rules| > 0 && ing.rules[0].host != ""
    ensures info.url != "" ==>
              info.url == Protocol(ing.tls, info.host) + "://" + info.host + info.path
  {
    if |ing.rules| == 0 then IngressInfo(ing.name, ing.namespace, "", "", "")
    else
      var rule := ing.rules[0];
      var path := FirstPath(rule);
      var url := if rule.host != "" then Protocol(ing.tls, rule.host) + "://" + rule.host + path else "";
      IngressInfo(ing.name, ing.namespace, rule.host, path, url)
  }

  /** An ingress the lister shows: not hidden and with a URL. */
  predicate Shown(ing: Ingress) {
    !Hidden(ing) && ExtractIngressInfo(ing).url != ""
  }

  /** Go's `a.Name < b.Name` as a "sorts no later than" relation. */
  predicate NameLe(a: IngressInfo, b: IngressInfo) {
    !Lex.Less(b.name, a.name)
  }

  lemma NameLeTotalPreorder()
    ensures TotalPreorder(NameLe)
  {
    forall a: IngressInfo, b: IngressInfo
      ensures NameLe(a, b) || NameLe(b, a)
    {
      Lex.NotLessIsLessEq(a.name, b.name);
      Lex.NotLessIsLessEq(b.name, a.name);
      Lex.LessEqTotalOrder(a.name, b.name, b.name);
    }
    forall a: IngressInfo, b: IngressInfo, c: IngressInfo | NameLe(a, b) && NameLe(b, c)
      ensures NameLe(a, c)
    {
      Lex.NotLessIsLessEq(a.name, b.name);
      Lex.NotLessIsLessEq(b.name, c.name);
      Lex.NotLessIsLessEq(a.name, c.name);
      Lex.LessEqTotalOrder(a.name, b.name, c.name);
    }
  }

  /** Records sorted by name: for any two positions, the later name is not smaller. */
  lemma SortedByNameMeansNondecreasing(s: seq<IngressInfo>, i: int, j: int)
    requires SortedBy(s, NameLe)
    requires 0 <= i < j < |s|
    ensures Lex.LessEq(s[i].name, s[j].name)
  {
    Lex.NotLessIsLessEq(s[i].name, s[j].name);
  }

  /** A demo record served over TLS at the root path of `host`. */
  function DemoRecord(name: string, namespace: string, host: string): (x: IngressInfo)
    requires host != ""
    ensures x.name == name && x.namespace == namespace && x.host == host && x.path == "/"
    ensures x.url == "https://" + x.host + x.path
  {
    IngressInfo(name, namespace, host, "/", "https://" + host + "/")
  }

  /**
   * getDemoIngresses: the fixed records shown when there is no cluster client.
   * Each is shaped like a record extracted from a TLS-covered rule.
   */
  function DemoIngresses(): (r: seq<IngressInfo>)
    ensures |r| == 5
    ensures forall i :: 0 <= i < |r| ==> r[i].host != "" && r[i].url == "https://" + r[i].host + r[i].path
  {
    [
      DemoRecord("grafana", "monitoring", "grafana.example.com"),
      DemoRecord("home-assistant", "home-automation", "hass.example.com"),
      DemoRecord("jellyfin", "media", "media.example.com"),
      DemoRecord("nextcloud", "productivity", "cloud.example.com"),
      DemoRecord("portainer", "management", "portainer.example.com")
    ]
  }

}

/**
 * GetVisibleIngresses of internal/k8s.go: the hide filter, the URL filter and
 * the sort by name, over the outcome of the cluster's List call.
 */
module IngressLister {
  import opened Wrappers
  import Lex
  import opened Sorting
  import opened Ingresses

  /** Some ingress of `items` is shown and projects to `x`: the reference definition of the kept records. */
  ghost predicate ProjectsShown(items: seq<Ingress>, x: IngressInfo) {
    exists i :: 0 <= i < |items| && Shown(items[i]) && ExtractIngressInfo(items[i]) == x
  }

  /** The projections of the shown ingresses, in listing order: the loop of GetVisibleIngresses before sorting. */
  function ShownProjections(items: seq<Ingress>): (r: seq<IngressInfo>)
    ensures |r| <= |items|
  {
    if |items| == 0 then []
    else if Shown(items[0]) then [ExtractIngressInfo(items[0])] + ShownProjections(items[1..])
    else ShownProjections(items[1..])
  }

  lemma ProjectsShownTail(items: seq<Ingress>, x: IngressInfo)
    requires |items| > 0
    ensures ProjectsShown(items, x) <==>
              (Shown(items[0]) && ExtractIngressInfo(items[0]) == x) || ProjectsShown(items[1..], x)
  {
    if ProjectsShown(items[1..], x) {
      var i :| 0 <= i < |items[1..]| && Shown(items[1..][i]) && ExtractIngressInfo(items[1..][i]) == x;
      assert items[i + 1] == items[1..][i];
    }
    if ProjectsShown(items, x) {
      var i :| 0 <= i < |items| && Shown(items[i]) && ExtractIngressInfo(items[i]) == x;
      if i > 0 {
        assert items[1..][i - 1] == items[i];
      }
    }
  }

  /** A record is kept exactly when it is the projection of some shown ingress. */
  lemma {:induction false} ShownProjectionsMembers(items: seq<Ingress>, x: IngressInfo)
    ensures x in ShownProjections(items) <==> ProjectsShown(items, x)
    decreases |items|
  {
    if |items| > 0 {
      ShownProjectionsMembers(items[1..], x);
      ProjectsShownTail(items, x);
    }
  }

  /** The demo list has five records, already sorted by name. */
  lemma DemoIngressesSorted()
    ensures |DemoIngresses()| == 5
    ensures SortedBy(DemoIngresses(), NameLe)
  {
    var d := DemoIngresses();
    var names := ["grafana", "home-assistant", "jellyfin", "nextcloud", "portainer"];
    forall i | 0 <= i < 5 ensures d[i].name == names[i] { }
    assert Lex.Less(names[0], names[1]);
    assert Lex.Less(names[1], names[2]);
    assert Lex.Less(names[2], names[3]);
    assert Lex.Less(names[3], names[4]);
    forall i, j | 0 <= i < j < |d|
      ensures NameLe(d[i], d[j])
    {
      if j > i + 1 {
        Lex.LessTransitive(names[i], names[i + 1], names[j]);
      }
      Lex.LessAsymmetric(d[i].name, d[j].name);
    }
  }

  /** The record's URL is a non-empty https:// link. */
  predicate LinksOverHttps(x: IngressInfo) {
    |x.url| > |"https://"| && x.url[..|"https://"|] == "https://"
  }

  /** Every demo record has a non-empty https:// URL. */
  lemma DemoIngressesUseHttps()
    ensures forall i :: 0 <= i < |DemoIngresses()| ==> LinksOverHttps(DemoIngresses()[i])
  {
    var d := DemoIngresses();
    assert LinksOverHttps(d[0]);
    assert LinksOverHttps(d[1]);
    assert LinksOverHttps(d[2]);
    assert LinksOverHttps(d[3]);
    assert LinksOverHttps(d[4]);
  }

  /** The cluster client: absent in demo mode; when present, `listing` is the outcome of listing all ingresses. */
  datatype Cluster = NoClient | Client(listing: Result<seq<Ingress>, string>)

  /**
   * GetVisibleIngresses: demo records without a client, the wrapped error when
   * the List call fails, otherwise the shown projections sorted by name.
   */
  function GetVisibleIngresses(cluster: Cluster): (r: Result<seq<IngressInfo>, string>)
    ensures cluster.NoClient? ==> r == Success(DemoIngresses())
    ensures cluster.Client? && cluster.listing.Failure? ==>
              r == Failure("failed to list ingresses: " + cluster.listing.error)
    ensures cluster.Client? && cluster.listing.Success? ==>
              && r.Success?
              && SortedBy(r.value, NameLe)
              && multiset(r.value) == multiset(ShownProjections(cluster.listing.value))
  {
    match cluster
    case NoClient => Success(DemoIngresses())
    case Client(Failure(e)) => Failure("failed to list ingresses: " + e)
    case Client(Success(items)) =>
      NameLeTotalPreorder();
      Success(InsertionSort(ShownProjections(items), NameLe))
  }

  /**
   * A successful listing shows a record exactly when it is the projection of a
   * shown ingress: not hidden and with a URL.
   */
  lemma ListedIffShown(items: seq<Ingress>, x: IngressInfo)
    ensures GetVisibleIngresses(Client(Success(items))).Success?
    ensures x in GetVisibleIngresses(Client(Success(items))).value <==> ProjectsShown(items, x)
    ensures x in GetVisibleIngresses(Client(Success(items))).value ==> x.url != ""
  {
    var r := GetVisibleIngresses(Client(Success(items))).value;
    assert x in r <==> x in multiset(r);
    ShownProjectionsMembers(items, x);
  }

  /** Two ingresses of the listing are the same Kubernetes object only if they are at the same position. */
  predicate UniqueIdentities(items: seq<Ingress>) {
    forall i, j ::
      0 <= i < |items| && 0 <= j < |items| && items[i].name == items[j].name && items[i].namespace == items[j].namespace
      ==> i == j
  }

  /** When objects are unique, an ingress annotated hide="true" has no record in the output. */
  lemma HiddenIngressNeverListed(items: seq<Ingress>, k: int)
    requires UniqueIdentities(items)
    requires 0 <= k < |items| && Hidden(items[k])
    ensures GetVisibleIngresses(Client(Success(items))).Success?
    ensures forall x :: x in GetVisibleIngresses(Client(Success(items))).value ==>
              x.name != items[k].name || x.namespace != items[k].namespace
  {
    forall x | x in GetVisibleIngresses(Client(Success(items))).value
      ensures x.name != items[k].name || x.namespace != items[k].namespace
    {
      ListedIffShown(items, x);
      var i :| 0 <= i < |items| && Shown(items[i]) && ExtractIngressInfo(items[i]) == x;
      assert i != k;
    }
  }

  /** When objects are unique, every shown ingress contributes exactly one record. */
  lemma {:induction false} ShownExactlyOnce(items: seq<Ingress>, k: int)
    requires UniqueIdentities(items)
    requires 0 <= k < |items| && Shown(items[k])
    ensures multiset(ShownProjections(items))[ExtractIngressInfo(items[k])] == 1
    decreases |items|
  {
    var x := ExtractIngressInfo(items[k]);
    assert UniqueIdentities(items[1..]) by {
      forall i, j | 0 <= i < |items[1..]| && 0 <= j < |items[1..]| && items[1..][i].name == items[1..][j].name
                    && items[1..][i].namespace == items[1..][j].namespace
        ensures i == j
      {
        assert items[i + 1] == items[1..][i] && items[j + 1] == items[1..][j];
      }
    }
    if k == 0 {
      ShownProjectionsMembers(items[1..], x);
      assert x !in multiset(ShownProjections(items[1..]));
    } else {
      assert items[1..][k - 1] == items[k];
      ShownExactlyOnce(items[1..], k - 1);
      if Shown(items[0]) {
        assert ExtractIngressInfo(items[0]) != x;
      }
    }
  }

  /** The same, for the output of GetVisibleIngresses. */
  lemma ShownListedExactlyOnce(items: seq<Ingress>, k: int)
    requires UniqueIdentities(items)
    requires 0 <= k < |items| && Shown(items[k])
    ensures GetVisibleIngresses(Client(Success(items))).Success?
    ensures multiset(GetVisibleIngresses(Client(Success(items))).value)[ExtractIngressInfo(items[k])] == 1
  {
    ShownExactlyOnce(items, k);
  }
}
