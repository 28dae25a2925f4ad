/**
 * The Cloudflare origin finder: host names taken from target URLs, the test whether an address
 * lies in Cloudflare's ranges, the choice of CrimeFlare query, and the lookup that reports a
 * target's archived records and collects the IPs found outside Cloudflare.
 *
 * DNS resolution, URL parsing, address parsing and SQLite are inputs: a target arrives as its
 * `urlparse` components, a resolved address as its text and parsed value, and the `cfdb` table
 * as its rows, in table order.
 */
module Cfire {
  import opened Outcomes
  import opened Text
  import opened CloudflareRanges
  import CflareUpdate

  /** A row of the `cfdb` table, as the archive updater inserts it. */
  type Row = CflareUpdate.Row

  predicate Distinct<T(==)>(s: seq<T>) {
    forall i, j :: 0 <= i < j < |s| ==> s[i] != s[j]
  }

  // ---------------------------------------------------------------------------------------------
  // Duplicate-free lists
  // ---------------------------------------------------------------------------------------------

  /** `if not xs.__contains__(x): xs.append(x)`. */
  function AppendNew<T(==,!new)>(xs: seq<T>, x: T): (r: seq<T>)
    ensures Distinct(xs) ==> Distinct(r)
    ensures forall y :: y in r <==> y in xs || y == x
    ensures |xs| <= |r| && r[..|xs|] == xs
  {
    if x in xs then xs else xs + [x]
  }

  /** The elements of `s` appended in turn to `acc`, each only when it is not there already. */
  function AddAll<T(==,!new)>(acc: seq<T>, s: seq<T>): (r: seq<T>)
    ensures Distinct(acc) ==> Distinct(r)
    ensures forall y :: y in r <==> y in acc || y in s
    ensures |acc| <= |r| && r[..|acc|] == acc
    decreases |s|
  {
    if s == [] then acc
    else
      var front := AddAll(acc, s[..|s| - 1]);
      assert s == s[..|s| - 1] + [s[|s| - 1]];
      var r := AppendNew(front, s[|s| - 1]);
      assert r[..|acc|] == front[..|front|][..|acc|];
      r
  }

  lemma AddAllSnoc<T(!new)>(acc: seq<T>, s: seq<T>, x: T)
    ensures AddAll(acc, s + [x]) == AppendNew(AddAll(acc, s), x)
  {
    assert (s + [x])[..|s|] == s;
  }

  /**
   * `list_uniq`: `list(set(seq))`, the same elements once each. Python leaves the order to the
   * set; this model keeps each element where it first occurs.
   */
  function ListUniq(s: seq<string>): (r: seq<string>)
    ensures Distinct(r)
    ensures forall x :: x in r <==> x in s
  {
    AddAll([], s)
  }

  /** The index at which `x` first occurs in `s`. */
  function FirstIndex<T(==)>(s: seq<T>, x: T): (i: nat)
    requires x in s
    ensures i < |s| && s[i] == x && x !in s[..i]
  {
    if s[0] == x then 0
    else
      var i := FirstIndex(s[1..], x);
      assert s[..i + 1] == [s[0]] + s[1..][..i];
      i + 1
  }

  lemma {:induction false} FirstIndexPrefix<T>(a: seq<T>, b: seq<T>, x: T)
    requires x in a
    ensures FirstIndex(a + b, x) == FirstIndex(a, x)
  {
    if a[0] != x {
      assert (a + b)[1..] == a[1..] + b;
      FirstIndexPrefix(a[1..], b, x);
    }
  }

  /** Collected elements stand in the order of their first occurrences in the input. */
  lemma {:induction false} AddAllFirstSeenOrder<T(!new)>(s: seq<T>, i: nat, j: nat)
    requires i < j < |AddAll([], s)|
    ensures FirstIndex(s, AddAll([], s)[i]) < FirstIndex(s, AddAll([], s)[j])
    decreases |s|
  {
    var front, x := s[..|s| - 1], s[|s| - 1];
    assert s == front + [x];
    var r', r := AddAll([], front), AddAll([], s);
    AddAllSnoc([], front, x);
    if x in r' {
      FirstIndexPrefix(front, [x], r[i]);
      FirstIndexPrefix(front, [x], r[j]);
      AddAllFirstSeenOrder(front, i, j);
    } else if j < |r'| {
      FirstIndexPrefix(front, [x], r[i]);
      FirstIndexPrefix(front, [x], r[j]);
      AddAllFirstSeenOrder(front, i, j);
    } else {
      assert r[j] == x && x !in front;
      assert r[i] == r'[i] && r[i] in front;
      FirstIndexPrefix(front, [x], r[i]);
      assert FirstIndex(s, x) == |front| by {
        assert forall k :: 0 <= k < |front| ==> s[k] == front[k] && s[k] != x;
      }
    }
  }

  // ---------------------------------------------------------------------------------------------
  // clean_uri
  // ---------------------------------------------------------------------------------------------

  /** What `urlparse` returns for a target, the three parts `clean_uri` reads. */
  datatype UrlParts = UrlParts(scheme: string, netloc: string, path: string)

  /** `h` is the text of `s` before its first `c`, or all of `s` when there is none. */
  predicate CutBefore(s: string, c: char, h: string) {
    StartsWith(s, h) && c !in h && (h == s || s[|h|] == c)
  }

  /** At most one text is the part before the first `c`. */
  lemma CutBeforeUnique(s: string, c: char, h: string, h': string)
    requires CutBefore(s, c, h) && CutBefore(s, c, h')
    ensures h == h'
  {
  }

  /** `s.split(c)[0]` is the text before the first `c`. */
  lemma SplitHead(s: string, c: char)
    ensures CutBefore(s, c, Split(s, [c])[0])
  {
    SplitFirst(s, [c]);
    ContainsChar(s, c);
    match Find(s, [c])
    case None =>
    case Some(i) =>
      NoEarlierOccurrence(s, [c], i);
      ContainsChar(s[..i], c);
      assert s[i..i + 1] == [c];
  }

  /** The host `clean_uri` takes from one target. */
  function Host(u: UrlParts): (h: string)
    ensures u.netloc == "" && ':' in u.path ==> CutBefore(u.path, ':', h)
    ensures u.netloc == "" && ':' !in u.path && u.scheme != "" ==> h == u.scheme
    ensures u.netloc == "" && ':' !in u.path && u.scheme == "" ==> CutBefore(u.path, '/', h)
    ensures u.netloc != "" ==> CutBefore(u.netloc, ':', h)
  {
    ContainsChar(u.path, ':');
    ContainsChar(u.path, '/');
    ContainsChar(u.netloc, ':');
    SplitHead(u.path, ':');
    SplitHead(u.path, '/');
    SplitHead(u.netloc, ':');
    if u.netloc == "" then
      if Find(u.path, ":").Some? then Split(u.path, ":")[0]
      else if u.scheme != "" then u.scheme
      else if Find(u.path, "/").Some? then Split(u.path, "/")[0]
      else u.path
    else if Find(u.netloc, ":").Some? then Split(u.netloc, ":")[0]
    else u.netloc
  }

  /** `clean_uri`: the host of every target, once each. */
  method CleanUri(targets: seq<UrlParts>) returns (hosts: seq<string>)
    ensures Distinct(hosts)
    ensures forall h :: h in hosts <==> exists k :: 0 <= k < |targets| && Host(targets[k]) == h
  {
    var tmp: seq<string> := [];
    var i := 0;
    while i < |targets|
      invariant 0 <= i <= |targets| && |tmp| == i
      invariant forall k :: 0 <= k < i ==> tmp[k] == Host(targets[k])
    {
      tmp := tmp + [Host(targets[i])];
      i := i + 1;
    }
    hosts := ListUniq(tmp);
    HostsMembers(targets, tmp);
  }

  /** A list holding the host of each target, in order, holds exactly the targets' hosts. */
  lemma HostsMembers(targets: seq<UrlParts>, tmp: seq<string>)
    requires |tmp| == |targets| && forall k :: 0 <= k < |targets| ==> tmp[k] == Host(targets[k])
    ensures forall h :: h in tmp <==> exists k :: 0 <= k < |targets| && Host(targets[k]) == h
  {
    forall h | h in tmp ensures exists k :: 0 <= k < |targets| && Host(targets[k]) == h {
      var k :| 0 <= k < |tmp| && tmp[k] == h;
      assert Host(targets[k]) == h;
    }
  }

  /** A target written as a bare host with a port, `example.com:8080/x`, gives the host alone. */
  lemma HostDropsPort(u: UrlParts, host: string, rest: string)
    requires u.netloc == "" && u.path == host + ":" + rest && ':' !in host
    ensures Host(u) == host
  {
    assert CutBefore(u.path, ':', host) by {
      assert u.path[..|host|] == host;
      assert u.path[|host|] == ':';
    }
    assert ':' in u.path by {
      assert u.path[|host|] == ':';
    }
    CutBeforeUnique(u.path, ':', host, Host(u));
  }

  // ---------------------------------------------------------------------------------------------
  // check_cf_ranges
  // ---------------------------------------------------------------------------------------------

  /** netaddr's `address in network`: the same family, and the same bits above the host bits. */
  predicate InCidr(a: Address, c: Cidr) {
    a.family == c.family && a.value / Pow2(HostBits(c)) == c.network / Pow2(HostBits(c))
  }

  /** The block of `2^hostbits` addresses that starts at the network with its host bits cleared. */
  predicate InBlock(a: Address, c: Cidr) {
    var size := Pow2(HostBits(c));
    var first := c.network - c.network % size;
    a.family == c.family && first <= a.value < first + size
  }

  /** Multiplying by a positive number keeps a strict order, by at least that number. */
  lemma {:induction false} MulGap(a: nat, b: nat, p: nat)
    requires a < b && p >= 1
    ensures a * p + p <= b * p
    decreases b
  {
    assert b * p == (b - 1) * p + p;
    if a < b - 1 {
      MulGap(a, b - 1, p);
    }
  }

  lemma DivBlock(v: nat, n: nat, p: nat)
    requires p >= 1
    ensures v / p == n / p <==> n - n % p <= v < n - n % p + p
  {
    var q, qv := n / p, v / p;
    assert n - n % p == q * p;
    assert v == qv * p + v % p && v % p < p;
    if qv < q {
      MulGap(qv, q, p);
    } else if qv > q {
      MulGap(q, qv, p);
    }
  }

  /** Block membership by prefix bits and by address interval agree. */
  lemma InCidrIffInBlock(a: Address, c: Cidr)
    ensures InCidr(a, c) <==> InBlock(a, c)
  {
    DivBlock(a.value, c.network, Pow2(HostBits(c)));
  }

  /** The address lies in one of Cloudflare's ranges. */
  predicate Hosted(a: Address) {
    exists k :: 0 <= k < |CfRanges| && InCidr(a, CfRanges[k])
  }

  /** `check_cf_ranges`: scan the ranges in order and stop at the first that holds the address. */
  method CheckCfRanges(ip: Address) returns (hosted: bool)
    ensures hosted <==> Hosted(ip)
  {
    var k := 0;
    while k < |CfRanges|
      invariant 0 <= k <= |CfRanges|
      invariant forall j :: 0 <= j < k ==> !InCidr(ip, CfRanges[j])
    {
      if InCidr(ip, CfRanges[k]) {
        return true;
      }
      k := k + 1;
    }
    return false;
  }

  /** An IPv4 address is never in an IPv6 range, and the reverse. */
  lemma HostedByFamily(a: Address)
    ensures a.family == IPv4 ==> (Hosted(a) <==> exists k :: 0 <= k < 14 && InCidr(a, CfRanges[k]))
    ensures a.family == IPv6 ==> (Hosted(a) <==> exists k :: 14 <= k < 21 && InCidr(a, CfRanges[k]))
  {
    assert |CfRanges| == 21;
    assert forall k :: 0 <= k < 14 ==> CfRanges[k].family == IPv4;
    assert forall k :: 14 <= k < 21 ==> CfRanges[k].family == IPv6;
  }

  lemma Pow2Twenty()
    ensures Pow2(20) == 0x10_0000
  {
    assert Pow2(5) == 32;
    assert Pow2(10) == 1024;
    assert Pow2(15) == 32768;
  }

  /** `104.16.0.1` lies in `104.16.0.0/12`. */
  lemma CloudflareAddressHosted()
    ensures Hosted(Address(IPv4, V4(104, 16, 0, 1)))
  {
    Pow2Twenty();
    assert InCidr(Address(IPv4, V4(104, 16, 0, 1)), CfRanges[3]);
  }

  // ---------------------------------------------------------------------------------------------
  // query_crimeflare_database
  // ---------------------------------------------------------------------------------------------

  /** The four searches `query_crimeflare_database` can build. */
  datatype Query =
    | ByDomain(domain: string)
    | ByIp(ip: string)
    | ByCreated(created: string)
    | ByNameservers(nameservers: string, excluded: string)

  /** Python truth of an optional string argument: present and non-empty. */
  predicate Truthy(v: Option<string>) {
    v.Some? && v.value != ""
  }

  /** `'{}'.format(v)`: `None` prints as `None`. */
  function PyStr(v: Option<string>): string {
    match v
    case None => "None"
    case Some(s) => s
  }

  /** The position of the argument a query searches by, in the order domain, ip, created, nameservers. */
  function Rank(q: Query): nat {
    match q
    case ByDomain(_) => 0
    case ByIp(_) => 1
    case ByCreated(_) => 2
    case ByNameservers(_, _) => 3
  }

  /** The value a query searches for. */
  function Key(q: Query): string {
    match q
    case ByDomain(d) => d
    case ByIp(i) => i
    case ByCreated(c) => c
    case ByNameservers(n, _) => n
  }

  /**
   * The `if`/`elif` chain: the query searches by the first truthy argument, or there is none and
   * `_query` is never bound.
   */
  function ChooseQuery(domain: Option<string>, ip: Option<string>, created: Option<string>, nameservers: Option<string>): (q: Option<Query>)
    ensures q.None? <==> forall k :: 0 <= k < 4 ==> !Truthy([domain, ip, created, nameservers][k])
    ensures q.Some? ==> Rank(q.value) < 4 && Truthy([domain, ip, created, nameservers][Rank(q.value)])
    ensures q.Some? ==> Some(Key(q.value)) == [domain, ip, created, nameservers][Rank(q.value)]
    ensures q.Some? ==> forall k :: 0 <= k < Rank(q.value) ==> !Truthy([domain, ip, created, nameservers][k])
    ensures q.Some? && q.value.ByNameservers? ==> q.value.excluded == PyStr(domain)
  {
    var args := [domain, ip, created, nameservers];
    assert args[0] == domain && args[1] == ip && args[2] == created && args[3] == nameservers;
    if Truthy(domain) then Some(ByDomain(domain.value))
    else if Truthy(ip) then Some(ByIp(ip.value))
    else if Truthy(created) then Some(ByCreated(created.value))
    else if Truthy(nameservers) then Some(ByNameservers(nameservers.value, PyStr(domain)))
    else None
  }

  const DomainSql := "SELECT * FROM cfdb WHERE domain='"
  const IpSql := "SELECT * FROM cfdb WHERE ip='"
  const CreatedSql := "SELECT * FROM cfdb WHERE created='"
  const NameserversSql := "SELECT * FROM cfdb WHERE nameservers='"

  lemma SqlOne(sql: string, x: string)
    requires NoBraces(sql)
    ensures Format(sql + "{}'", [x]) == Some(sql + x + "'")
  {
    FormatOne(sql, "'", x);
    assert sql + "{}'" == sql + "{}" + "'";
  }

  lemma SqlNameservers(n: string, d: string)
    ensures Format(NameserversSql + "{}' AND domain!='{}'", [n, d]) == Some(NameserversSql + n + "' AND domain!='" + d + "'")
  {
    var mid := "' AND domain!='";
    PlainNameserversSql();
    PlainMid();
    PlainQuote();
    FormatTwo(NameserversSql, mid, "'", n, d);
    NameserversTemplate();
  }

  lemma NameserversTemplate()
    ensures NameserversSql + "{}' AND domain!='{}'" == NameserversSql + "{}" + "' AND domain!='" + "{}" + "'"
  {
  }

  lemma PlainMid()
    ensures NoBraces("' AND domain!='")
  {
  }

  lemma PlainQuote()
    ensures NoBraces("'")
  {
  }

  /** None of the four SQL prefixes holds a brace. */
  lemma PlainDomainSql()
    ensures NoBraces(DomainSql)
  {
  }

  lemma PlainIpSql()
    ensures NoBraces(IpSql)
  {
  }

  lemma PlainCreatedSql()
    ensures NoBraces(CreatedSql)
  {
  }

  lemma PlainNameserversSql()
    ensures NoBraces(NameserversSql)
  {
  }

  /** The SQL text of a query, as its `format` call builds it. */
  function QueryText(q: Query): (sql: string)
    ensures q.ByDomain? ==> Format(DomainSql + "{}'", [q.domain]) == Some(sql)
    ensures q.ByIp? ==> Format(IpSql + "{}'", [q.ip]) == Some(sql)
    ensures q.ByCreated? ==> Format(CreatedSql + "{}'", [q.created]) == Some(sql)
    ensures q.ByNameservers? ==> Format(NameserversSql + "{}' AND domain!='{}'", [q.nameservers, q.excluded]) == Some(sql)
  {
    match q
    case ByDomain(d) =>
      PlainDomainSql();
      SqlOne(DomainSql, d);
      DomainSql + d + "'"
    case ByIp(i) =>
      PlainIpSql();
      SqlOne(IpSql, i);
      IpSql + i + "'"
    case ByCreated(c) =>
      PlainCreatedSql();
      SqlOne(CreatedSql, c);
      CreatedSql + c + "'"
    case ByNameservers(n, d) =>
      SqlNameservers(n, d);
      NameserversSql + n + "' AND domain!='" + d + "'"
  }

  /** The rows the query's `WHERE` clause selects. */
  predicate Matches(q: Query, row: Row) {
    match q
    case ByDomain(d) => row.domain == d
    case ByIp(i) => row.ip == i
    case ByCreated(c) => row.created == c
    case ByNameservers(n, d) => row.nameservers == n && row.domain != d
  }

  /** The matching rows, in table order, each as often as the table holds it. */
  function Select(table: seq<Row>, q: Query): (rows: seq<Row>)
    ensures |rows| <= |table|
  {
    if table == [] then []
    else
      var front := Select(table[..|table| - 1], q);
      assert table == table[..|table| - 1] + [table[|table| - 1]];
      if Matches(q, table[|table| - 1]) then front + [table[|table| - 1]] else front
  }

  /** Exactly the table's rows that match the query are selected. */
  lemma {:induction false} SelectMembers(table: seq<Row>, q: Query)
    ensures forall row :: row in Select(table, q) <==> row in table && Matches(q, row)
    decreases |table|
  {
    if table != [] {
      SelectMembers(table[..|table| - 1], q);
      assert table == table[..|table| - 1] + [table[|table| - 1]];
    }
  }

  /** Each matching row is selected as often as the table holds it, and no other row is. */
  lemma {:induction false} SelectCount(table: seq<Row>, q: Query, row: Row)
    ensures multiset(Select(table, q))[row] == if Matches(q, row) then multiset(table)[row] else 0
    decreases |table|
  {
    if table != [] {
      var front := table[..|table| - 1];
      SelectCount(front, q, row);
      assert table == front + [table[|table| - 1]];
    }
  }

  /** Selecting from two stretches of the table selects from each, the first one's rows first. */
  lemma {:induction false} SelectAppend(a: seq<Row>, b: seq<Row>, q: Query)
    ensures Select(a + b, q) == Select(a, q) + Select(b, q)
    decreases |b|
  {
    if b == [] {
      assert a + b == a;
    } else {
      var b', x := b[..|b| - 1], b[|b| - 1];
      SelectAppend(a, b', q);
      assert a + b == (a + b') + [x] && b == b' + [x];
      SelectSnoc(a + b', x, q);
      SelectSnoc(b', x, q);
      var tail: seq<Row> := if Matches(q, x) then [x] else [];
      RegroupTail(Select(a + b', q), Select(a, q), Select(b', q), tail, Select(a + b, q), Select(b, q));
    }
  }

  lemma SelectSnoc(t: seq<Row>, x: Row, q: Query)
    ensures Select(t + [x], q) == Select(t, q) + if Matches(q, x) then [x] else []
  {
    assert (t + [x])[..|t|] == t;
  }

  lemma RegroupTail(s: seq<Row>, l: seq<Row>, m: seq<Row>, t: seq<Row>, s': seq<Row>, m': seq<Row>)
    requires s == l + m && s' == s + t && m' == m + t
    ensures s' == l + m'
  {
    Assoc(l, m, t);
  }

  /** The answer of a query: the rows, `False` for none, or `SystemExit`. */
  datatype Answer = Records(rows: seq<Row>) | NoRecords | QueryFailed

  /**
   * `query_crimeflare_database`: with no truthy argument `cur.execute(_query)` raises, which ends
   * in `SystemExit`; otherwise the selected rows if there are any, else `False`.
   */
  function QueryCrimeflare(table: seq<Row>, domain: Option<string>, ip: Option<string>, created: Option<string>, nameservers: Option<string>): (a: Answer)
    ensures a.QueryFailed? <==> ChooseQuery(domain, ip, created, nameservers).None?
    ensures a.Records? ==> a.rows != [] && forall row :: row in a.rows <==> row in table && Matches(ChooseQuery(domain, ip, created, nameservers).value, row)
    ensures a.NoRecords? ==> forall row :: row in table ==> !Matches(ChooseQuery(domain, ip, created, nameservers).value, row)
  {
    match ChooseQuery(domain, ip, created, nameservers)
    case None => QueryFailed
    case Some(q) =>
      var rows := Select(table, q);
      SelectMembers(table, q);
      if rows != [] then Records(rows) else NoRecords
  }

  /** The rows of a query with records are each matching row of the table, as often as the table holds it. */
  lemma QueryRecordsCount(table: seq<Row>, domain: Option<string>, ip: Option<string>, created: Option<string>, nameservers: Option<string>, row: Row)
    requires QueryCrimeflare(table, domain, ip, created, nameservers).Records?
    ensures multiset(QueryCrimeflare(table, domain, ip, created, nameservers).rows)[row] ==
      if Matches(ChooseQuery(domain, ip, created, nameservers).value, row) then multiset(table)[row] else 0
  {
    SelectCount(table, ChooseQuery(domain, ip, created, nameservers).value, row);
  }

  // ---------------------------------------------------------------------------------------------
  // crimeflare_db_lookup
  // ---------------------------------------------------------------------------------------------

  /** What `dns_resolver` gives: `False`, or the A record's text with its parsed address. */
  datatype Resolution = Unresolved | Resolved(text: string, addr: Address)

  /** The lines the lookup prints, in order. */
  datatype Report =
    | CouldNotResolve(target: string)
    | OnCloudflare(target: string, ip: string)
    | OffCloudflare(target: string, ip: string)
    | NoRecordsFor(target: string)
    | RecordCount(count: nat)
    | Record(row: Row)
    | CheckingOtherDomains
    | OtherDomain(row: Row)
    | NoOtherDomains

  function ResolveReport(target: string, res: Resolution): Report {
    match res
    case Unresolved => CouldNotResolve(target)
    case Resolved(ip, a) => if Hosted(a) then OnCloudflare(target, ip) else OffCloudflare(target, ip)
  }

  /** The resolved IP when it lies outside Cloudflare's ranges. */
  function OffCloudflareIps(res: Resolution): seq<string> {
    if res.Resolved? && !Hosted(res.addr) then [res.text] else []
  }

  function IpsOf(rows: seq<Row>): (ips: seq<string>)
    ensures |ips| == |rows| && forall k :: 0 <= k < |rows| ==> ips[k] == rows[k].ip
  {
    seq(|rows|, k requires 0 <= k < |rows| => rows[k].ip)
  }

  function RecordReports(rows: seq<Row>): (reports: seq<Report>)
    ensures |reports| == |rows| && forall k :: 0 <= k < |rows| ==> reports[k] == Record(rows[k])
  {
    seq(|rows|, k requires 0 <= k < |rows| => Record(rows[k]))
  }

  /** The rows of a reverse lookup that are reported: those of another domain than the target. */
  function OtherReports(target: string, rows: seq<Row>): (reports: seq<Report>)
    ensures forall r :: r in reports <==> exists row :: row in rows && row.domain != target && r == OtherDomain(row)
    ensures |reports| <= |rows|
  {
    if rows == [] then []
    else
      var front := OtherReports(target, rows[..|rows| - 1]);
      var last := rows[|rows| - 1];
      assert rows == rows[..|rows| - 1] + [last];
      if last.domain != target then front + [OtherDomain(last)] else front
  }

  /** Each row of another domain is reported as often as it occurs, and a row of the target never. */
  lemma {:induction false} OtherReportsCount(target: string, rows: seq<Row>, row: Row)
    ensures multiset(OtherReports(target, rows))[OtherDomain(row)] == if row.domain != target then multiset(rows)[row] else 0
    decreases |rows|
  {
    if rows != [] {
      var front := rows[..|rows| - 1];
      OtherReportsCount(target, front, row);
      assert rows == front + [rows[|rows| - 1]];
    }
  }

  /** Reporting two stretches of rows reports each, the first one's rows first. */
  lemma {:induction false} OtherReportsAppend(target: string, a: seq<Row>, b: seq<Row>)
    ensures OtherReports(target, a + b) == OtherReports(target, a) + OtherReports(target, b)
    decreases |b|
  {
    if b == [] {
      assert a + b == a;
    } else {
      var b' := b[..|b| - 1];
      OtherReportsAppend(target, a, b');
      assert (a + b)[..|a + b| - 1] == a + b';
    }
  }

  /** One reverse lookup: the reports for an IP, or nothing when the query ends in `SystemExit`. */
  function ReverseStep(target: string, table: seq<Row>, ip: string): Option<seq<Report>> {
    match QueryCrimeflare(table, None, Some(ip), None, None)
    case QueryFailed => None
    case NoRecords => Some([NoOtherDomains])
    case Records(rows) => Some(OtherReports(target, rows))
  }

  /** The reports of a sequence of reverse lookups, and whether one of them exited. */
  datatype Sweep = Sweep(reports: seq<Report>, exited: bool)

  function ReverseLookup(target: string, table: seq<Row>, ips: seq<string>): Sweep
    decreases |ips|
  {
    if ips == [] then Sweep([], false)
    else
      var prev := ReverseLookup(target, table, ips[..|ips| - 1]);
      if prev.exited then prev
      else
        match ReverseStep(target, table, ips[|ips| - 1])
        case None => Sweep(prev.reports, true)
        case Some(rs) => Sweep(prev.reports + rs, false)
  }

  /** What one call of `crimeflare_db_lookup` prints, whether it exited, and `_foundips` after it. */
  datatype Lookup = Lookup(reports: seq<Report>, exited: bool, foundIps: seq<string>)

  function CrimeflareLookup(target: string, res: Resolution, table: seq<Row>, foundIps: seq<string>): Lookup {
    AfterQuery(target, table, [ResolveReport(target, res)], AddAll(foundIps, OffCloudflareIps(res)),
      QueryCrimeflare(table, Some(target), None, None, None))
  }

  /** The lookup after the resolution step, from the answer to the query by the target's domain. */
  function AfterQuery(target: string, table: seq<Row>, head: seq<Report>, ips: seq<string>, answer: Answer): Lookup {
    match answer
    case QueryFailed => Lookup(head, true, ips)
    case NoRecords => Lookup(head + [NoRecordsFor(target)], false, ips)
    case Records(rows) =>
      var found := AddAll([], IpsOf(rows));
      var sweep := ReverseLookup(target, table, found);
      Lookup(head + [RecordCount(|rows|)] + RecordReports(rows) + (if found != [] then [CheckingOtherDomains] + sweep.reports else []),
        sweep.exited, AddAll(ips, IpsOf(rows)))
  }

  /** After rows came back: their reports, then the banner and the sweep when some IP was collected. */
  lemma AfterQueryRecords(target: string, table: seq<Row>, head: seq<Report>, ips: seq<string>, rows: seq<Row>)
    ensures var found := AddAll([], IpsOf(rows));
      AfterQuery(target, table, head, ips, Records(rows)) ==
      Lookup(head + [RecordCount(|rows|)] + RecordReports(rows) +
        (if found != [] then [CheckingOtherDomains] + ReverseLookup(target, table, found).reports else []),
        found != [] && ReverseLookup(target, table, found).exited, AddAll(ips, IpsOf(rows)))
  {
  }

  /** A reverse lookup exits exactly at an empty IP, the one value the query chain cannot search by. */
  lemma {:induction false} ReverseLookupExits(target: string, table: seq<Row>, ips: seq<string>)
    ensures ReverseLookup(target, table, ips).exited <==> "" in ips
    decreases |ips|
  {
    if ips != [] {
      var front := ips[..|ips| - 1];
      ReverseLookupExits(target, table, front);
      ReverseStepExits(target, table, ips[|ips| - 1]);
      assert ips == front + [ips[|ips| - 1]];
    }
  }

  /** One reverse lookup exits exactly when its IP is empty. */
  lemma ReverseStepExits(target: string, table: seq<Row>, ip: string)
    ensures ReverseStep(target, table, ip).None? <==> ip == ""
  {
    assert Truthy(Some(ip)) <==> ip != "";
  }

  /** Once a reverse lookup has exited, the later IPs add nothing. */
  lemma {:induction false} ReverseLookupStops(target: string, table: seq<Row>, ips: seq<string>, i: nat)
    requires i <= |ips| && ReverseLookup(target, table, ips[..i]).exited
    ensures ReverseLookup(target, table, ips) == ReverseLookup(target, table, ips[..i])
    decreases |ips|
  {
    if i < |ips| {
      var front := ips[..|ips| - 1];
      assert front[..i] == ips[..i];
      ReverseLookupStops(target, table, front, i);
    } else {
      assert ips[..i] == ips;
    }
  }

  /** Every report of a reverse lookup is another domain's row on a searched IP, or the all-clear. */
  lemma {:induction false} ReverseLookupReports(target: string, table: seq<Row>, ips: seq<string>)
    ensures forall r :: r in ReverseLookup(target, table, ips).reports ==>
      r == NoOtherDomains || (r.OtherDomain? && r.row.domain != target && r.row in table && r.row.ip in ips)
    decreases |ips|
  {
    if ips != [] {
      var front, ip := ips[..|ips| - 1], ips[|ips| - 1];
      ReverseLookupReports(target, table, front);
      assert ips == front + [ip];
    }
  }

  /** An IP that some row of the table holds never gets the all-clear. */
  lemma {:induction false} ReverseLookupFindsRows(target: string, table: seq<Row>, ips: seq<string>)
    requires forall ip :: ip in ips ==> exists row :: row in table && row.ip == ip
    ensures NoOtherDomains !in ReverseLookup(target, table, ips).reports
    decreases |ips|
  {
    if ips != [] {
      var front, ip := ips[..|ips| - 1], ips[|ips| - 1];
      assert ips == front + [ip];
      assert forall y :: y in front ==> y in ips;
      ReverseLookupFindsRows(target, table, front);
      assert ip in ips;
      var row :| row in table && row.ip == ip;
      if ip != "" {
        assert Matches(ByIp(ip), row);
      }
    }
  }

  /** The IPs `_foundips` holds after a lookup: those before, the resolved one outside Cloudflare, and those of the target's rows. */
  lemma LookupFoundIps(target: string, res: Resolution, table: seq<Row>, foundIps: seq<string>, x: string)
    ensures x in CrimeflareLookup(target, res, table, foundIps).foundIps <==>
      x in foundIps || x in OffCloudflareIps(res) ||
      (target != "" && exists row :: row in table && row.domain == target && row.ip == x)
  {
    var rows := Select(table, ByDomain(target));
    SelectMembers(table, ByDomain(target));
    if target != "" {
      if (exists row :: row in table && row.domain == target && row.ip == x) {
        var row :| row in table && row.domain == target && row.ip == x;
        assert row in rows;
        var k :| 0 <= k < |rows| && rows[k] == row;
        assert IpsOf(rows)[k] == x;
      }
      if x in IpsOf(rows) {
        var k :| 0 <= k < |rows| && IpsOf(rows)[k] == x;
        assert rows[k] in rows;
      }
    }
  }

  /** `_foundips` keeps what it held, in place, and never gains a duplicate. */
  lemma LookupKeepsFoundIps(target: string, res: Resolution, table: seq<Row>, foundIps: seq<string>)
    requires Distinct(foundIps)
    ensures Distinct(CrimeflareLookup(target, res, table, foundIps).foundIps)
    ensures CrimeflareLookup(target, res, table, foundIps).foundIps[..|foundIps|] == foundIps
  {
    var ips := AddAll(foundIps, OffCloudflareIps(res));
    var answer := QueryCrimeflare(table, Some(target), None, None, None);
    AfterQueryIps(target, table, [ResolveReport(target, res)], ips, answer);
    PrefixOfPrefix(foundIps, ips, CrimeflareLookup(target, res, table, foundIps).foundIps);
  }

  /** After the query, `_foundips` is what it was plus, when rows came back, their IPs. */
  lemma AfterQueryIps(target: string, table: seq<Row>, head: seq<Report>, ips: seq<string>, answer: Answer)
    ensures AfterQuery(target, table, head, ips, answer).foundIps ==
      if answer.Records? then AddAll(ips, IpsOf(answer.rows)) else ips
  {
  }

  lemma PrefixOfPrefix<T>(a: seq<T>, b: seq<T>, c: seq<T>)
    requires |a| <= |b| <= |c| && b[..|a|] == a && c[..|b|] == b
    ensures c[..|a|] == a
  {
    assert c[..|a|] == c[..|b|][..|a|];
  }

  /**
   * The resolved IP joins `_foundips` when it lies outside Cloudflare's ranges; inside them it
   * joins only if it was there already or one of the target's rows holds it.
   */
  lemma LookupResolvedIp(target: string, ip: string, a: Address, table: seq<Row>, foundIps: seq<string>)
    ensures !Hosted(a) ==> ip in CrimeflareLookup(target, Resolved(ip, a), table, foundIps).foundIps
    ensures Hosted(a) && ip !in foundIps && (forall row :: row in table && row.domain == target ==> row.ip != ip) ==>
      ip !in CrimeflareLookup(target, Resolved(ip, a), table, foundIps).foundIps
  {
    LookupFoundIps(target, Resolved(ip, a), table, foundIps, ip);
  }

  /** The IPs of the target's rows are searched once each, in the order they first appear. */
  lemma FoundIpsOrder(rows: seq<Row>, i: nat, j: nat)
    requires i < j < |AddAll([], IpsOf(rows))|
    ensures FirstIndex(IpsOf(rows), AddAll([], IpsOf(rows))[i]) < FirstIndex(IpsOf(rows), AddAll([], IpsOf(rows))[j])
    ensures Distinct(AddAll([], IpsOf(rows)))
  {
    AddAllFirstSeenOrder(IpsOf(rows), i, j);
  }

  /** The reports of a lookup that found rows for its target. */
  function FoundReports(target: string, res: Resolution, table: seq<Row>, rows: seq<Row>): seq<Report> {
    var found := AddAll([], IpsOf(rows));
    [ResolveReport(target, res)] + [RecordCount(|rows|)] + RecordReports(rows) +
      (if found != [] then [CheckingOtherDomains] + ReverseLookup(target, table, found).reports else [])
  }

  lemma LookupReportsShape(target: string, res: Resolution, table: seq<Row>, foundIps: seq<string>)
    ensures QueryCrimeflare(table, Some(target), None, None, None).Records? ==>
      CrimeflareLookup(target, res, table, foundIps).reports ==
      FoundReports(target, res, table, QueryCrimeflare(table, Some(target), None, None, None).rows)
    ensures !QueryCrimeflare(table, Some(target), None, None, None).Records? ==>
      (CrimeflareLookup(target, res, table, foundIps).reports == [ResolveReport(target, res)] ||
       CrimeflareLookup(target, res, table, foundIps).reports == [ResolveReport(target, res), NoRecordsFor(target)])
  {
    match QueryCrimeflare(table, Some(target), None, None, None)
    case QueryFailed =>
    case NoRecords =>
      assert [ResolveReport(target, res)] + [NoRecordsFor(target)] == [ResolveReport(target, res), NoRecordsFor(target)];
    case Records(rows) =>
  }

  /** Every searched IP comes from one of the target's rows, so each is held by a row of the table. */
  lemma FoundIpsInTable(table: seq<Row>, rows: seq<Row>)
    requires forall row :: row in rows ==> row in table
    ensures forall ip :: ip in AddAll([], IpsOf(rows)) ==> exists row :: row in table && row.ip == ip
  {
    forall ip | ip in AddAll([], IpsOf(rows)) ensures exists row :: row in table && row.ip == ip {
      var k :| 0 <= k < |rows| && IpsOf(rows)[k] == ip;
      assert rows[k] in rows;
    }
  }

  /**
   * What a lookup reports once it found rows: a row of the target's own domain is never reported
   * as another domain, and "no other domains" is never printed, since each searched IP comes from
   * a row of the same table.
   */
  lemma FoundReportsProperties(target: string, res: Resolution, table: seq<Row>, rows: seq<Row>)
    requires forall row :: row in rows ==> row in table
    ensures forall r :: r in FoundReports(target, res, table, rows) && r.OtherDomain? ==> r.row.domain != target && r.row in table
    ensures NoOtherDomains !in FoundReports(target, res, table, rows)
  {
    var found := AddAll([], IpsOf(rows));
    var sweep := ReverseLookup(target, table, found).reports;
    ReverseLookupReports(target, table, found);
    FoundIpsInTable(table, rows);
    ReverseLookupFindsRows(target, table, found);
    var head := [ResolveReport(target, res)] + [RecordCount(|rows|)] + RecordReports(rows);
    FoundHeadPlain(target, res, rows);
    var tail := if found != [] then [CheckingOtherDomains] + sweep else [];
    ReportsOfParts(target, table, head, sweep, tail);
  }

  /** The lines before the reverse lookup report no other domain and give no all-clear. */
  lemma FoundHeadPlain(target: string, res: Resolution, rows: seq<Row>)
    ensures forall r :: r in [ResolveReport(target, res)] + [RecordCount(|rows|)] + RecordReports(rows) ==>
      !r.OtherDomain? && r != NoOtherDomains
  {
    var records := RecordReports(rows);
    assert forall r :: r in records ==> r.Record?;
  }

  /** The lines before the reverse lookup, then its banner and reports: each part's properties carry over. */
  lemma ReportsOfParts(target: string, table: seq<Row>, head: seq<Report>, sweep: seq<Report>, tail: seq<Report>)
    requires forall r :: r in head ==> !r.OtherDomain? && r != NoOtherDomains
    requires forall r :: r in sweep ==> r == NoOtherDomains || (r.OtherDomain? && r.row.domain != target && r.row in table)
    requires NoOtherDomains !in sweep
    requires tail == [] || tail == [CheckingOtherDomains] + sweep
    ensures forall r :: r in head + tail && r.OtherDomain? ==> r.row.domain != target && r.row in table
    ensures NoOtherDomains !in head + tail
  {
  }

  /**
   * What a lookup reports: the resolution first; a row of the target's own domain is never
   * reported as another domain; and "no other domains" is never printed.
   */
  lemma LookupReports(target: string, res: Resolution, table: seq<Row>, foundIps: seq<string>)
    ensures CrimeflareLookup(target, res, table, foundIps).reports[0] == ResolveReport(target, res)
    ensures forall r :: r in CrimeflareLookup(target, res, table, foundIps).reports && r.OtherDomain? ==>
      r.row.domain != target && r.row in table
    ensures NoOtherDomains !in CrimeflareLookup(target, res, table, foundIps).reports
  {
    LookupReportsShape(target, res, table, foundIps);
    var answer := QueryCrimeflare(table, Some(target), None, None, None);
    if answer.Records? {
      FoundReportsProperties(target, res, table, answer.rows);
    }
  }

  /** A lookup exits exactly when the target is empty or one of its rows has an empty IP. */
  lemma LookupExits(target: string, res: Resolution, table: seq<Row>, foundIps: seq<string>)
    ensures CrimeflareLookup(target, res, table, foundIps).exited <==>
      target == "" || exists row :: row in table && row.domain == target && row.ip == ""
  {
    if target != "" {
      var rows := Select(table, ByDomain(target));
      SelectMembers(table, ByDomain(target));
      if rows != [] {
        var found := AddAll([], IpsOf(rows));
        ReverseLookupExits(target, table, found);
        if "" in found {
          var k :| 0 <= k < |rows| && IpsOf(rows)[k] == "";
          assert rows[k] in rows;
        }
        if exists row :: row in table && row.domain == target && row.ip == "" {
          var row :| row in table && row.domain == target && row.ip == "";
          assert row in rows;
          var k :| 0 <= k < |rows| && rows[k] == row;
          assert IpsOf(rows)[k] == "";
        }
      }
    }
  }

  /** The reports of one reverse lookup, or none when its query exits: the inner loop over the rows. */
  method ReverseStepLoop(target: string, table: seq<Row>, ip: string) returns (reports: Option<seq<Report>>)
    ensures reports == ReverseStep(target, table, ip)
  {
    var answer := QueryCrimeflare(table, None, Some(ip), None, None);
    match answer {
      case QueryFailed =>
        reports := None;
      case NoRecords =>
        reports := Some([NoOtherDomains]);
      case Records(rows) =>
        var others: seq<Report> := [];
        var j := 0;
        while j < |rows|
          invariant 0 <= j <= |rows|
          invariant others == OtherReports(target, rows[..j])
        {
          assert rows[..j + 1][..j] == rows[..j];
          if rows[j].domain != target {
            others := others + [OtherDomain(rows[j])];
          }
          j := j + 1;
        }
        assert rows[..j] == rows;
        reports := Some(others);
    }
  }

  /** `for _ip in _found`: one reverse lookup per IP, stopping at the first that exits. */
  method ReverseLookupLoop(target: string, table: seq<Row>, ips: seq<string>) returns (reports: seq<Report>, exited: bool)
    ensures Sweep(reports, exited) == ReverseLookup(target, table, ips)
  {
    reports := [];
    var i := 0;
    while i < |ips|
      invariant 0 <= i <= |ips|
      invariant ReverseLookup(target, table, ips[..i]) == Sweep(reports, false)
    {
      assert ips[..i + 1][..i] == ips[..i];
      var step := ReverseStepLoop(target, table, ips[i]);
      if step.None? {
        ReverseLookupStops(target, table, ips, i + 1);
        return reports, true;
      }
      reports := reports + step.value;
      i := i + 1;
    }
    assert ips[..i] == ips;
    exited := false;
  }

  lemma RowsSnoc(rows: seq<Row>, i: nat)
    requires i < |rows|
    ensures IpsOf(rows[..i + 1]) == IpsOf(rows[..i]) + [rows[i].ip]
    ensures RecordReports(rows[..i + 1]) == RecordReports(rows[..i]) + [Record(rows[i])]
  {
  }

  /** The module's global `_foundips`. */
  class Finder {
    var foundIps: seq<string>

    constructor ()
      ensures foundIps == []
    {
      foundIps := [];
    }

    /** The resolution step: report where the address lies, and keep it when it lies outside Cloudflare. */
    method Resolve(target: string, res: Resolution) returns (report: Report)
      modifies this
      ensures report == ResolveReport(target, res)
      ensures foundIps == AddAll(old(foundIps), OffCloudflareIps(res))
    {
      match res {
        case Unresolved =>
          report := CouldNotResolve(target);
        case Resolved(ip, a) =>
          var hosted := CheckCfRanges(a);
          if hosted {
            report := OnCloudflare(target, ip);
          } else {
            report := OffCloudflare(target, ip);
            foundIps := AppendNew(foundIps, ip);
            AddAllSnoc(old(foundIps), [], ip);
          }
      }
    }

    /** `for result in _results`: report each row and collect its IP into `_found` and `_foundips`. */
    method RecordRows(rows: seq<Row>) returns (records: seq<Report>, found: seq<string>)
      modifies this
      ensures records == RecordReports(rows)
      ensures found == AddAll([], IpsOf(rows))
      ensures foundIps == AddAll(old(foundIps), IpsOf(rows))
    {
      records, found := [], [];
      var i := 0;
      while i < |rows|
        invariant 0 <= i <= |rows|
        invariant records == RecordReports(rows[..i])
        invariant found == AddAll([], IpsOf(rows[..i]))
        invariant foundIps == AddAll(old(foundIps), IpsOf(rows[..i]))
      {
        RowsSnoc(rows, i);
        AddAllSnoc([], IpsOf(rows[..i]), rows[i].ip);
        AddAllSnoc(old(foundIps), IpsOf(rows[..i]), rows[i].ip);
        records := records + [Record(rows[i])];
        found := AppendNew(found, rows[i].ip);
        foundIps := AppendNew(foundIps, rows[i].ip);
        i := i + 1;
      }
      assert rows[..i] == rows;
    }

    /** `crimeflare_db_lookup` for one target, with the resolver's answer and the table as inputs. */
    method CrimeflareDbLookup(target: string, res: Resolution, table: seq<Row>) returns (reports: seq<Report>, exited: bool)
      modifies this
      ensures Lookup(reports, exited, foundIps) == CrimeflareLookup(target, res, table, old(foundIps))
    {
      var report := Resolve(target, res);
      reports := [report];
      ghost var resolvedIps := foundIps;
      var answer := QueryCrimeflare(table, Some(target), None, None, None);
      match answer {
        case QueryFailed =>
          exited := true;
        case NoRecords =>
          reports := reports + [NoRecordsFor(target)];
          exited := false;
        case Records(rows) =>
          reports, exited := Found(target, table, reports, rows);
      }
      assert Lookup(reports, exited, foundIps) == AfterQuery(target, table, [report], resolvedIps, answer);
    }

    /** The part of `crimeflare_db_lookup` after the query by domain returned rows. */
    method Found(target: string, table: seq<Row>, head: seq<Report>, rows: seq<Row>) returns (reports: seq<Report>, exited: bool)
      modifies this
      ensures Lookup(reports, exited, foundIps) == AfterQuery(target, table, head, old(foundIps), Records(rows))
    {
      var records, found := RecordRows(rows);
      var sweep: seq<Report> := [];
      exited := false;
      if found != [] {
        var more;
        more, exited := ReverseLookupLoop(target, table, found);
        sweep := [CheckingOtherDomains] + more;
      }
      reports := head + [RecordCount(|rows|)] + records + sweep;
      AfterQueryRecords(target, table, head, old(foundIps), rows);
    }
  }
}
