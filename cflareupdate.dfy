/**
 * The CrimeFlare archive updater: the download file name and progress bar, the parsers that fill
 * the nameserver and country tables from their archives' records, the ipout rows built from them,
 * and the decision which archives to fetch again.
 *
 * An archive is given as its records, the lines of all its members in order; the parsers' loop
 * variables live across members, so the members' lines form one sequence. Records are text, split
 * on Python 3 `str` whitespace.
 */
module CflareUpdate {
  import opened Outcomes
  import opened Text

  /** `record.decode('utf-8').split()`. */
  function Tokens(record: string): seq<string> {
    Words(record, UnicodeWhitespace)
  }

  /** The tokens of every record, in order. */
  function TokenLines(records: seq<string>): (lines: seq<seq<string>>)
    ensures |lines| == |records|
  {
    seq(|records|, k requires 0 <= k < |records| => Tokens(records[k]))
  }

  /** Line `k` is the whitespace split of record `k`: the records are split one for one, in order. */
  lemma TokenLinesAt(records: seq<string>)
    ensures forall k :: 0 <= k < |records| ==> TokenLines(records)[k] == Words(records[k], UnicodeWhitespace)
  {
  }

  // ---------------------------------------------------------------------------------------------
  // downloadCFdb
  // ---------------------------------------------------------------------------------------------

  /**
   * `'{}/{}'.format(cfdbpath, cfdbfile.split('/')[-1])`: the directory, a slash, and the text after
   * the URL's last slash.
   */
  function DownloadFilename(cfdbpath: string, cfdbfile: string): (f: string)
    ensures Format("{}/{}", [cfdbpath, LastPiece(cfdbfile, "/")]) == Some(f)
    ensures StartsWith(f, cfdbpath + "/")
    ensures !Contains(f[|cfdbpath| + 1..], "/") && EndsWith(cfdbfile, f[|cfdbpath| + 1..])
    ensures |f| - |cfdbpath| - 1 < |cfdbfile| ==> EndsWith(cfdbfile[..|cfdbfile| - (|f| - |cfdbpath| - 1)], "/")
  {
    var last := LastPiece(cfdbfile, "/");
    SplitLast(cfdbfile, "/");
    SlashFormat(cfdbpath, last);
    cfdbpath + "/" + last
  }

  /** `'{}/{}'` filled with two texts, and where each sits in the result. */
  lemma SlashFormat(a: string, b: string)
    ensures Format("{}/{}", [a, b]) == Some(a + "/" + b)
    ensures StartsWith(a + "/" + b, a + "/") && (a + "/" + b)[|a| + 1..] == b
  {
    FormatTwo("", "/", "", a, b);
    assert "" + "{}" + "/" + "{}" + "" == "{}/{}";
    assert "" + a + "/" + b + "" == a + "/" + b;
    assert (a + "/" + b)[..|a| + 1] == a + "/";
  }

  /** `c * n`: `n` copies of `c`, none when `n` is not positive. */
  function Repeat(c: char, n: int): (s: string)
    ensures |s| == (if n > 0 then n else 0)
    ensures forall i :: 0 <= i < |s| ==> s[i] == c
    decreases n
  {
    if n <= 0 then "" else [c] + Repeat(c, n - 1)
  }

  /** `int(50 * dl / total_length)`, for a non-negative count and a positive total. */
  function Done(dl: nat, total: nat): nat
    requires total > 0
  {
    50 * dl / total
  }

  /** `'\r[{}{}]'.format('=' * done, ' ' * (50-done))`. */
  function Bar(done: nat): string {
    "\r[" + Repeat('=', done) + Repeat(' ', 50 - done) + "]"
  }

  /**
   * While no more than the announced length has arrived, the bar is 50 characters between its
   * brackets: `done` of them `=`, the rest spaces; all of it once the whole length has arrived.
   */
  lemma BarShape(dl: nat, total: nat)
    requires total > 0 && dl <= total
    ensures Done(dl, total) <= 50
    ensures |Bar(Done(dl, total))| == 53
    ensures forall i :: 2 <= i < 2 + Done(dl, total) ==> Bar(Done(dl, total))[i] == '='
    ensures forall i :: 2 + Done(dl, total) <= i < 52 ==> Bar(Done(dl, total))[i] == ' '
    ensures dl == total ==> Done(dl, total) == 50
  {
    var d := Done(dl, total);
    DoneBound(dl, total);
    var eq := Repeat('=', d);
    var sp := Repeat(' ', 50 - d);
    assert Bar(d) == "\r[" + eq + sp + "]";
    forall i | 2 <= i < 2 + d ensures Bar(d)[i] == '=' {
      assert Bar(d)[i] == eq[i - 2];
    }
    forall i | 2 + d <= i < 52 ensures Bar(d)[i] == ' ' {
      assert Bar(d)[i] == sp[i - 2 - d];
    }
  }

  lemma DoneBound(dl: nat, total: nat)
    requires total > 0 && dl <= total
    ensures Done(dl, total) <= 50
    ensures dl == total ==> Done(dl, total) == 50
  {
    assert 50 * dl <= 50 * total;
    if dl == total {
      assert 50 * dl == 50 * total;
    }
  }

  /** The chunks written so far, end to end. */
  function Concat(chunks: seq<string>): string {
    if chunks == [] then "" else Concat(chunks[..|chunks| - 1]) + chunks[|chunks| - 1]
  }

  /** The bars drawn after each chunk, for a positive announced length. */
  function Frames(chunks: seq<string>, total: nat): (frames: seq<string>)
    requires total > 0
    ensures |frames| == |chunks|
  {
    if chunks == [] then [] else Frames(chunks[..|chunks| - 1], total) + [Bar(Done(|Concat(chunks)|, total))]
  }

  /** The bar after each chunk shows the share of the announced length received up to and including that chunk. */
  lemma {:induction false} FramesAt(chunks: seq<string>, total: nat, k: nat)
    requires total > 0 && k < |chunks|
    ensures Frames(chunks, total)[k] == Bar(Done(|Concat(chunks[..k + 1])|, total))
    decreases |chunks|
  {
    var n := |chunks| - 1;
    if k < n {
      FramesAt(chunks[..n], total, k);
      assert chunks[..n][..k + 1] == chunks[..k + 1];
    } else {
      assert chunks[..k + 1] == chunks;
    }
  }

  /** One more chunk: the data grows by it and one more bar is drawn. */
  lemma DownloadStep(chunks: seq<string>, total: nat, i: nat)
    requires total > 0 && i < |chunks|
    ensures Concat(chunks[..i + 1]) == Concat(chunks[..i]) + chunks[i]
    ensures Frames(chunks[..i + 1], total) == Frames(chunks[..i], total) + [Bar(Done(|Concat(chunks[..i + 1])|, total))]
  {
    assert chunks[..i + 1][..i] == chunks[..i];
  }

  /** `SystemExit` on a reply other than 200, and the division by an announced length of zero. */
  datatype DownloadError = NotFound | ZeroDivisionError

  /** The file written and what was written to the console. */
  datatype Download = Download(filename: string, data: string, console: seq<string>)

  /**
   * The body of `downloadCFdb` after the request: the reply's chunks, as the library delivers
   * them, written to the file one by one, with a progress bar after each when the length is
   * announced, and a newline at the end.
   */
  method DownloadCFdb(cfdbpath: string, cfdbfile: string, status: int, contentLength: Option<nat>, chunks: seq<string>)
    returns (r: Result<Download, DownloadError>)
    ensures status != 200 ==> r == Err(NotFound)
    ensures status == 200 && contentLength.None? ==>
      r == Ok(Download(DownloadFilename(cfdbpath, cfdbfile), Concat(chunks), ["\n"]))
    ensures status == 200 && contentLength == Some(0) ==>
      r == if chunks == [] then Ok(Download(DownloadFilename(cfdbpath, cfdbfile), "", ["\n"])) else Err(ZeroDivisionError)
    ensures status == 200 && contentLength.Some? && contentLength.value > 0 ==>
      r == Ok(Download(DownloadFilename(cfdbpath, cfdbfile), Concat(chunks), Frames(chunks, contentLength.value) + ["\n"]))
  {
    if status != 200 {
      return Err(NotFound);
    }
    var filename := DownloadFilename(cfdbpath, cfdbfile);
    if contentLength.None? {
      return Ok(Download(filename, Concat(chunks), ["\n"]));
    }
    var total := contentLength.value;
    if total == 0 {
      if chunks == [] {
        return Ok(Download(filename, "", ["\n"]));
      }
      return Err(ZeroDivisionError);
    }
    var dl := 0;
    var data := "";
    var console: seq<string> := [];
    var i := 0;
    while i < |chunks|
      invariant 0 <= i <= |chunks|
      invariant data == Concat(chunks[..i]) && dl == |data|
      invariant console == Frames(chunks[..i], total)
    {
      DownloadStep(chunks, total, i);
      dl := dl + |chunks[i]|;
      data := data + chunks[i];
      console := console + [Bar(50 * dl / total)];
      i := i + 1;
    }
    assert chunks[..i] == chunks;
    r := Ok(Download(filename, data, console + ["\n"]));
  }

  // ---------------------------------------------------------------------------------------------
  // parsensout
  // ---------------------------------------------------------------------------------------------

  /** The loop variables `NS1`, `NS2`, `DOMAIN` once bound. */
  datatype NsVars = NsVars(ns1: string, ns2: string, domain: string)

  /** The index `list.remove` takes out: the first occurrence. */
  function IndexOf(xs: seq<string>, x: string): (i: nat)
    requires x in xs
    ensures i < |xs| && xs[i] == x && x !in xs[..i]
  {
    if xs[0] == x then 0
    else
      var j := IndexOf(xs[1..], x);
      assert xs[..j + 1] == [xs[0]] + xs[1..][..j];
      j + 1
  }

  /** `l.remove(x)` for an element that is there. */
  function RemoveFirst(xs: seq<string>, x: string): (r: seq<string>)
    requires x in xs
    ensures |r| == |xs| - 1 && multiset(r) == multiset(xs) - multiset{x}
  {
    var i := IndexOf(xs, x);
    assert xs == xs[..i] + [xs[i]] + xs[i + 1..];
    xs[..i] + xs[i + 1..]
  }

  /**
   * A record of more than three tokens: the last is the domain, its first occurrence goes, the
   * last two tokens left are the second nameserver and the others the first.
   */
  function NsLong(tokens: seq<string>): (v: NsVars)
    requires |tokens| > 3
    ensures v.domain == tokens[|tokens| - 1]
  {
    var domain := tokens[|tokens| - 1];
    var rest := RemoveFirst(tokens, domain);
    var n := |rest|;
    NsVars(Join(rest[..n - 2], " "), Join(rest[n - 2..], " "), domain)
  }

  /** The loop variables after one record: three tokens bind them, more go through `NsLong`, fewer leave them. */
  function NsAssign(tokens: seq<string>, prev: Option<NsVars>): Option<NsVars> {
    if |tokens| == 3 then Some(NsVars(tokens[0], tokens[1], tokens[2]))
    else if |tokens| > 3 then Some(NsLong(tokens))
    else prev
  }

  /** The loop variables after the given records; unbound before the first. */
  function NsVarsAfter(lines: seq<seq<string>>): Option<NsVars> {
    if lines == [] then None else NsAssign(lines[|lines| - 1], NsVarsAfter(lines[..|lines| - 1]))
  }

  /** `'{} {}'.format(NS1, NS2)`. */
  function NsValue(v: NsVars): (s: string)
    ensures Format("{} {}", [v.ns1, v.ns2]) == Some(s)
  {
    FormatTwo("", " ", "", v.ns1, v.ns2);
    assert "" + "{}" + " " + "{}" + "" == "{} {}";
    assert "" + v.ns1 + " " + v.ns2 + "" == v.ns1 + " " + v.ns2;
    v.ns1 + " " + v.ns2
  }

  /** `_nsdict` after the given records, each storing the value of the loop variables under their domain. */
  function NsFold(table: map<string, string>, lines: seq<seq<string>>): map<string, string> {
    if lines == [] then table
    else
      var before := NsFold(table, lines[..|lines| - 1]);
      match NsVarsAfter(lines)
      case None => before
      case Some(v) => before[v.domain := NsValue(v)]
  }

  /** The variables and the table after one more record. */
  lemma NsPrefixStep(table: map<string, string>, lines: seq<seq<string>>, i: nat)
    requires i < |lines|
    ensures NsVarsAfter(lines[..i + 1]) == NsAssign(lines[i], NsVarsAfter(lines[..i]))
    ensures NsVarsAfter(lines[..i + 1]).Some? ==>
      NsFold(table, lines[..i + 1]) == NsFold(table, lines[..i])[NsVarsAfter(lines[..i + 1]).value.domain := NsValue(NsVarsAfter(lines[..i + 1]).value)]
  {
    assert lines[..i + 1][..i] == lines[..i];
  }

  /** Once bound, the loop variables stay bound. */
  lemma {:induction false} NsBound(lines: seq<seq<string>>)
    requires lines != [] && |lines[0]| >= 3
    ensures NsVarsAfter(lines).Some?
    decreases |lines|
  {
    if |lines| > 1 {
      NsBound(lines[..|lines| - 1]);
    }
  }

  /** The variables are unbound after the records exactly when the first record is short; then the first iteration fails. */
  lemma {:induction false} NsUnbound(lines: seq<seq<string>>)
    requires lines != []
    ensures NsVarsAfter(lines[..1]).None? <==> |lines[0]| < 3
  {
    assert lines[..1][..0] == [];
  }

  /** The table holds the value of the last binding under its domain. */
  lemma {:induction false} NsFoldHolds(table: map<string, string>, lines: seq<seq<string>>)
    requires NsVarsAfter(lines).Some?
    ensures NsVarsAfter(lines).value.domain in NsFold(table, lines)
    ensures NsFold(table, lines)[NsVarsAfter(lines).value.domain] == NsValue(NsVarsAfter(lines).value)
  {
  }

  /** A three-token record stores `NS1 NS2` under its domain, over whatever was there before. */
  lemma NsThreeTokens(table: map<string, string>, lines: seq<seq<string>>, t: seq<string>)
    requires |t| == 3
    ensures NsFold(table, lines + [t]) == NsFold(table, lines)[t[2] := t[0] + " " + t[1]]
  {
    assert (lines + [t])[..|lines|] == lines;
  }

  /** A short record after a bound one stores the previous record's value again: the table does not change. */
  lemma NsShortKeeps(table: map<string, string>, lines: seq<seq<string>>, t: seq<string>)
    requires |t| < 3 && NsVarsAfter(lines).Some?
    ensures NsFold(table, lines + [t]) == NsFold(table, lines)
  {
    assert (lines + [t])[..|lines|] == lines;
    NsFoldHolds(table, lines);
  }

  /**
   * When the domain occurs only at the end of a long record, the stored value followed by a space
   * and the domain is the whole record again.
   */
  lemma NsLongRejoins(tokens: seq<string>)
    requires |tokens| > 3 && tokens[|tokens| - 1] !in tokens[..|tokens| - 1]
    ensures NsValue(NsLong(tokens)) + " " + NsLong(tokens).domain == Join(tokens, " ")
  {
    var n := |tokens|;
    var domain := tokens[n - 1];
    IndexOfLast(tokens, domain);
    var rest := RemoveFirst(tokens, domain);
    assert rest == tokens[..n - 1];
    JoinAt(rest, " ", |rest| - 2);
    JoinLast(tokens, " ");
  }

  /** An element that occurs only at the end is found there. */
  lemma IndexOfLast(xs: seq<string>, x: string)
    requires xs != [] && xs[|xs| - 1] == x && x !in xs[..|xs| - 1]
    ensures IndexOf(xs, x) == |xs| - 1
  {
    var i := IndexOf(xs, x);
    assert forall j :: 0 <= j < |xs| - 1 ==> xs[..|xs| - 1][j] == xs[j];
  }

  /** When the domain also occurs earlier, that earlier copy is the one removed and the last stays in the second nameserver. */
  lemma NsLongRepeatedDomain()
    ensures NsLong(["ns1", "d", "ns2", "d"]) == NsVars("ns1", "ns2 d", "d")
  {
    RepeatedDomainRemoved();
    var rest := ["ns1", "ns2", "d"];
    assert rest[..1] == ["ns1"];
    assert rest[1..] == ["ns2", "d"];
    SecondNameserverJoined();
  }

  lemma RepeatedDomainRemoved()
    ensures RemoveFirst(["ns1", "d", "ns2", "d"], "d") == ["ns1", "ns2", "d"]
  {
    var tokens := ["ns1", "d", "ns2", "d"];
    assert tokens[1..] == ["d", "ns2", "d"];
    assert IndexOf(tokens[1..], "d") == 0;
    assert IndexOf(tokens, "d") == 1;
    assert tokens[..1] + tokens[2..] == ["ns1", "ns2", "d"];
  }

  lemma SecondNameserverJoined()
    ensures Join(["ns2", "d"], " ") == "ns2 d"
  {
    JoinLast(["ns2", "d"], " ");
    assert ["ns2", "d"][..1] == ["ns2"];
    assert "ns2" + " " + "d" == "ns2 d";
  }

  /** What a parser stops with: the loop variables read before any record bound them. */
  datatype ParseOutcome = Parsed | UnboundLocalError

  // ---------------------------------------------------------------------------------------------
  // parsecountry
  // ---------------------------------------------------------------------------------------------

  /** Which records bind `DOMAIN`: as written only a three-token record; as intended any with a domain, an IP and a country. */
  datatype DomainRule = AsWritten | Intended

  /** `' '.join(tokens[2:])`: the country of a record, possibly several words. */
  function CountryName(tokens: seq<string>): string {
    if |tokens| == 3 then tokens[2] else Join(if |tokens| >= 2 then tokens[2..] else [], " ")
  }

  /** A three-token record's country is its third token, as `' '.join` of one piece gives. */
  lemma CountryNameOfThree(t: seq<string>)
    requires |t| >= 3
    ensures CountryName(t) == Join(t[2..], " ")
  {
  }

  function CountryDomain(rule: DomainRule, tokens: seq<string>, prev: Option<string>): Option<string> {
    if |tokens| == 3 || (rule == Intended && |tokens| > 3) then Some(tokens[0]) else prev
  }

  function CountryDomainAfter(rule: DomainRule, lines: seq<seq<string>>): Option<string> {
    if lines == [] then None
    else CountryDomain(rule, lines[|lines| - 1], CountryDomainAfter(rule, lines[..|lines| - 1]))
  }

  /** `_countrydict` after the given records, each storing its country under the current `DOMAIN`. */
  function CountryFold(rule: DomainRule, table: map<string, string>, lines: seq<seq<string>>): map<string, string> {
    if lines == [] then table
    else
      var before := CountryFold(rule, table, lines[..|lines| - 1]);
      match CountryDomainAfter(rule, lines)
      case None => before
      case Some(d) => before[d := CountryName(lines[|lines| - 1])]
  }

  /** The domain and the table after one more record. */
  lemma CountryPrefixStep(rule: DomainRule, table: map<string, string>, lines: seq<seq<string>>, i: nat)
    requires i < |lines|
    ensures CountryDomainAfter(rule, lines[..i + 1]) == CountryDomain(rule, lines[i], CountryDomainAfter(rule, lines[..i]))
    ensures CountryDomainAfter(rule, lines[..i + 1]).Some? ==>
      CountryFold(rule, table, lines[..i + 1]) ==
      CountryFold(rule, table, lines[..i])[CountryDomainAfter(rule, lines[..i + 1]).value := CountryName(lines[i])]
  {
    assert lines[..i + 1][..i] == lines[..i];
  }

  /** A record that does not bind `DOMAIN` stores its country under the domain of an earlier record. */
  lemma CountryStale(rule: DomainRule, table: map<string, string>, lines: seq<seq<string>>, t: seq<string>)
    requires CountryDomain(rule, t, None).None? && CountryDomainAfter(rule, lines).Some?
    ensures CountryFold(rule, table, lines + [t]) ==
      CountryFold(rule, table, lines)[CountryDomainAfter(rule, lines).value := CountryName(t)]
  {
    assert (lines + [t])[..|lines|] == lines;
  }

  /**
   * As written, a record with a multi-word country keeps the previous record's domain: the
   * second record's country overwrites the first's and the second domain gets no entry.
   */
  lemma CountryMisfiled()
    ensures CountryFold(AsWritten, map[], [["a.com", "1.1.1.1", "France"], ["b.com", "2.2.2.2", "United", "States"]]) ==
      map["a.com" := "United States"]
  {
    var lines := [["a.com", "1.1.1.1", "France"], ["b.com", "2.2.2.2", "United", "States"]];
    assert lines[..1] == [["a.com", "1.1.1.1", "France"]];
    assert lines[..1][..0] == [];
    assert lines[1][2..] == ["United", "States"];
    assert Join(["United", "States"], " ") == "United States" by {
      assert ["United", "States"][1..] == ["States"];
    }
  }

  /** As intended, every record with a domain, an IP and a country files that country under its own domain. */
  lemma CountryOwnDomain(table: map<string, string>, lines: seq<seq<string>>, t: seq<string>)
    requires |t| >= 3
    ensures CountryFold(Intended, table, lines + [t]) == CountryFold(Intended, table, lines)[t[0] := Join(t[2..], " ")]
  {
    assert (lines + [t])[..|lines|] == lines;
  }

  /** The same two records as intended: each country under its own domain. */
  lemma CountryFiled()
    ensures CountryFold(Intended, map[], [["a.com", "1.1.1.1", "France"], ["b.com", "2.2.2.2", "United", "States"]]) ==
      map["a.com" := "France", "b.com" := "United States"]
  {
    var lines := [["a.com", "1.1.1.1", "France"], ["b.com", "2.2.2.2", "United", "States"]];
    assert lines[..1] == [["a.com", "1.1.1.1", "France"]];
    assert lines[..1][..0] == [];
    assert lines[1][2..] == ["United", "States"];
    assert Join(["United", "States"], " ") == "United States" by {
      assert ["United", "States"][1..] == ["States"];
    }
  }

  /** With either rule, once the first record binds `DOMAIN` it stays bound. */
  lemma {:induction false} CountryBound(rule: DomainRule, lines: seq<seq<string>>)
    requires lines != [] && CountryDomain(rule, lines[0], None).Some?
    ensures CountryDomainAfter(rule, lines).Some?
    decreases |lines|
  {
    if |lines| > 1 {
      CountryBound(rule, lines[..|lines| - 1]);
    } else {
      assert lines[..0] == [];
    }
  }

  /** With either rule, `DOMAIN` is unbound after the first record exactly when that record does not bind it. */
  lemma {:induction false} CountryUnbound(rule: DomainRule, lines: seq<seq<string>>)
    requires lines != []
    ensures CountryDomainAfter(rule, lines[..1]).None? <==> CountryDomain(rule, lines[0], None).None?
  {
    assert lines[..1][..0] == [];
  }

  // ---------------------------------------------------------------------------------------------
  // Lookups and ipout rows
  // ---------------------------------------------------------------------------------------------

  /** `nsdictlookup` and `countrydictlookup`: the stored value, or `'N/A'`. */
  function LookupOrNA(table: map<string, string>, key: string): (r: string)
    ensures key in table ==> r == table[key]
    ensures key !in table ==> r == "N/A"
  {
    if key in table then table[key] else "N/A"
  }

  /** After a three-token nsout record, the lookup of its domain gives its two nameservers. */
  lemma NsLookupAfterRecord(table: map<string, string>, lines: seq<seq<string>>, t: seq<string>)
    requires |t| == 3
    ensures LookupOrNA(NsFold(table, lines + [t]), t[2]) == t[0] + " " + t[1]
  {
    NsThreeTokens(table, lines, t);
  }

  /** A row of the `cfdb` table: domain, ip, created, nameservers, country. */
  datatype Row = Row(domain: string, ip: string, created: string, nameservers: string, country: string)

  /** `record.decode('utf-8').strip().split()`. */
  function IpoutTokens(record: string): seq<string> {
    Tokens(Strip(record, UnicodeWhitespace))
  }

  /** The row of one ipout record: the second token, the third, the first without surrounding colons, and the two lookups. */
  function IpoutRow(tokens: seq<string>, nsTable: map<string, string>, countryTable: map<string, string>): Row
    requires |tokens| >= 3
  {
    var domain := TrimRight(tokens[1], UnicodeWhitespace);
    Row(domain, tokens[2], Strip(tokens[0], {':'}), LookupOrNA(nsTable, domain), LookupOrNA(countryTable, domain))
  }

  /** The row of one record, or nothing when it has fewer than three tokens. */
  function RowOf(record: string, nsTable: map<string, string>, countryTable: map<string, string>): (row: Option<Row>)
  {
    var tokens := IpoutTokens(record);
    if |tokens| < 3 then None else Some(IpoutRow(tokens, nsTable, countryTable))
  }

  /** The row of every record, in order. */
  function RowOptions(records: seq<string>, nsTable: map<string, string>, countryTable: map<string, string>): (rows: seq<Option<Row>>)
    ensures |rows| == |records|
  {
    seq(|records|, k requires 0 <= k < |records| => RowOf(records[k], nsTable, countryTable))
  }

  /** The rows are all there exactly when every record has at least three tokens, one row per record in order. */
  lemma RowsIff(records: seq<string>, nsTable: map<string, string>, countryTable: map<string, string>)
    ensures AllSome(RowOptions(records, nsTable, countryTable)).Some? <==> forall k :: 0 <= k < |records| ==> |IpoutTokens(records[k])| >= 3
    ensures AllSome(RowOptions(records, nsTable, countryTable)).Some? ==>
      forall k :: 0 <= k < |records| ==> RowOf(records[k], nsTable, countryTable) == Some(AllSome(RowOptions(records, nsTable, countryTable)).value[k])
  {
    var options := RowOptions(records, nsTable, countryTable);
    AllSomeIff(options);
    forall k | 0 <= k < |records| ensures options[k].Some? <==> |IpoutTokens(records[k])| >= 3 {
      assert options[k] == RowOf(records[k], nsTable, countryTable);
    }
  }

  /**
   * A row holds the record's second token as domain (right-stripping a token changes nothing), its
   * third as IP, its first without surrounding colons as date, and the two lookups of the domain.
   */
  lemma RowFields(record: string, nsTable: map<string, string>, countryTable: map<string, string>)
    requires |IpoutTokens(record)| >= 3
    ensures RowOf(record, nsTable, countryTable) == Some(Row(IpoutTokens(record)[1], IpoutTokens(record)[2],
      Strip(IpoutTokens(record)[0], {':'}), LookupOrNA(nsTable, IpoutTokens(record)[1]), LookupOrNA(countryTable, IpoutTokens(record)[1])))
  {
    var t := IpoutTokens(record);
    StripKeeps(t[1], UnicodeWhitespace);
    assert TrimRight(t[1], UnicodeWhitespace) == t[1];
    assert RowOf(record, nsTable, countryTable) == Some(IpoutRow(t, nsTable, countryTable));
  }

  /** One record more in `parseipout`'s loop, stated over the rows alone. */
  lemma IpoutStep(options: seq<Option<Row>>, i: nat, rows: seq<Row>, row: Option<Row>)
    requires i < |options| && AllSome(options[..i]) == Some(rows) && row == options[i]
    ensures row.Some? ==> AllSome(options[..i + 1]) == Some(rows + [row.value])
    ensures row.None? ==> AllSome(options).None?
  {
    AllSomeStep(options, i, rows);
  }

  /** `IndexError` from a record of fewer than three tokens. */
  datatype RowError = IndexError

  /** The `if`/`elif` of `parsensout`'s loop body that binds the loop variables. */
  method BindNsVars(tokens: seq<string>, prev: Option<NsVars>) returns (vars: Option<NsVars>)
    ensures vars == NsAssign(tokens, prev)
    ensures prev.Some? || |tokens| >= 3 <==> vars.Some?
  {
    vars := prev;
    if |tokens| == 3 {
      vars := Some(NsVars(tokens[0], tokens[1], tokens[2]));
    } else if |tokens| > 3 {
      vars := Some(NsLong(tokens));
    }
  }

  /** The module's two global tables. */
  class CrimeFlareDb {
    var nsTable: map<string, string>
    var countryTable: map<string, string>

    constructor ()
      ensures nsTable == map[] && countryTable == map[]
    {
      nsTable := map[];
      countryTable := map[];
    }

    /**
     * `parsensout`: each record stores the loop variables under their domain. The first record
     * fails when it is short, since the variables are not yet bound; later short records repeat
     * the previous entry.
     */
    method ParseNsout(records: seq<string>) returns (outcome: ParseOutcome)
      modifies this
      ensures countryTable == old(countryTable)
      ensures outcome == UnboundLocalError <==> records != [] && |Tokens(records[0])| < 3
      ensures outcome == Parsed ==> nsTable == NsFold(old(nsTable), TokenLines(records))
      ensures outcome == UnboundLocalError ==> nsTable == old(nsTable)
    {
      ghost var lines := TokenLines(records);
      var vars: Option<NsVars> := None;
      var i := 0;
      while i < |records|
        invariant 0 <= i <= |records| && countryTable == old(countryTable)
        invariant vars == NsVarsAfter(lines[..i])
        invariant nsTable == NsFold(old(nsTable), lines[..i])
        invariant i > 0 ==> |lines[0]| >= 3 && vars.Some?
      {
        var tokens := Tokens(records[i]);
        assert tokens == lines[i];
        NsPrefixStep(old(nsTable), lines, i);
        vars := BindNsVars(tokens, vars);
        if vars.None? {
          return UnboundLocalError;
        }
        nsTable := nsTable[vars.value.domain := NsValue(vars.value)];
        i := i + 1;
      }
      assert lines[..i] == lines;
      outcome := Parsed;
    }

    /**
     * `parsecountry` under the given rule for `DOMAIN`: `AsWritten` binds it only from a record of
     * exactly three tokens, `Intended` from any record of three or more. The first record fails when
     * it does not bind `DOMAIN`; later ones that do not bind it reuse the domain before.
     */
    method ParseCountry(rule: DomainRule, records: seq<string>) returns (outcome: ParseOutcome)
      modifies this
      ensures nsTable == old(nsTable)
      ensures outcome == UnboundLocalError <==> records != [] && CountryDomain(rule, Tokens(records[0]), None).None?
      ensures outcome == Parsed ==> countryTable == CountryFold(rule, old(countryTable), TokenLines(records))
      ensures outcome == UnboundLocalError ==> countryTable == old(countryTable)
    {
      ghost var lines := TokenLines(records);
      var domain: Option<string> := None;
      var i := 0;
      while i < |records|
        invariant 0 <= i <= |records| && nsTable == old(nsTable)
        invariant domain == CountryDomainAfter(rule, lines[..i])
        invariant countryTable == CountryFold(rule, old(countryTable), lines[..i])
        invariant i > 0 ==> CountryDomain(rule, lines[0], None).Some? && domain.Some?
      {
        var tokens := Tokens(records[i]);
        assert tokens == lines[i];
        CountryPrefixStep(rule, old(countryTable), lines, i);
        var country: string;
        domain, country := BindCountry(rule, tokens, domain);
        if domain.None? {
          return UnboundLocalError;
        }
        countryTable := countryTable[domain.value := country];
        i := i + 1;
      }
      WholePrefix(lines);
      outcome := Parsed;
    }

    /** `parseipout` over the module's two tables. */
    method ParseIpout(records: seq<string>) returns (r: Result<seq<Row>, RowError>)
      ensures r.Ok? <==> AllSome(RowOptions(records, nsTable, countryTable)).Some?
      ensures r.Ok? ==> AllSome(RowOptions(records, nsTable, countryTable)) == Some(r.value)
      ensures r.Err? ==> r.error == IndexError
    {
      r := IpoutRows(records, nsTable, countryTable);
    }
  }

  /** The `try`/`except` of `parsecountry`'s loop body: the domain under the rule, and the country. */
  method BindCountry(rule: DomainRule, tokens: seq<string>, prev: Option<string>) returns (domain: Option<string>, country: string)
    ensures domain == CountryDomain(rule, tokens, prev) && country == CountryName(tokens)
    ensures domain.Some? <==> prev.Some? || |tokens| == 3 || (rule == Intended && |tokens| > 3)
  {
    domain := prev;
    if |tokens| == 3 {
      domain := Some(tokens[0]);
      country := tokens[2];
    } else {
      if rule == Intended && |tokens| > 3 {
        domain := Some(tokens[0]);
      }
      country := Join(if |tokens| >= 2 then tokens[2..] else [], " ");
    }
  }

  /** The loop body of `parseipout` before the insert: the row of the record at `i`. */
  method RecordRow(records: seq<string>, i: nat, nsTable: map<string, string>, countryTable: map<string, string>)
    returns (row: Option<Row>)
    requires i < |records|
    ensures row == RowOptions(records, nsTable, countryTable)[i]
  {
    row := RowOf(records[i], nsTable, countryTable);
  }

  /**
   * The rows `parseipout` inserts: one per record, in order, or `IndexError` when any record
   * has fewer than three tokens, in which case nothing is inserted.
   */
  method IpoutRows(records: seq<string>, nsTable: map<string, string>, countryTable: map<string, string>)
    returns (r: Result<seq<Row>, RowError>)
    ensures r.Ok? <==> AllSome(RowOptions(records, nsTable, countryTable)).Some?
    ensures r.Ok? ==> AllSome(RowOptions(records, nsTable, countryTable)) == Some(r.value)
    ensures r.Err? ==> r.error == IndexError
  {
    ghost var options := RowOptions(records, nsTable, countryTable);
    var rows: seq<Row> := [];
    var i := 0;
    while i < |records|
      invariant 0 <= i <= |records|
      invariant AllSome(options[..i]) == Some(rows)
    {
      var row := RecordRow(records, i, nsTable, countryTable);
      IpoutStep(options, i, rows, row);
      if row.None? {
        return Err(IndexError);
      }
      rows := rows + [row.value];
      i := i + 1;
    }
    WholePrefix(options);
    r := Ok(rows);
  }

  // ---------------------------------------------------------------------------------------------
  // updateCFdb
  // ---------------------------------------------------------------------------------------------

  datatype Archive = Ipout | Nsout | Country

  function ArchiveName(a: Archive): string {
    match a
    case Ipout => "ipout.zip"
    case Nsout => "nsout.zip"
    case Country => "country.zip"
  }

  /** What the updater learns about one archive: whether it is readable locally, its size after any first fetch, and the HEAD reply. */
  datatype ArchiveState = ArchiveState(readable: bool, size: int, status: int, length: int)

  datatype UpdateAction = Fetch(archive: Archive) | Unreachable | UpToDate | CreateDatabase | ArchivesMissing

  function FetchIfMissing(a: Archive, s: ArchiveState): seq<UpdateAction> {
    if s.readable then [] else [Fetch(a)]
  }

  function FetchIfChanged(a: Archive, s: ArchiveState): seq<UpdateAction> {
    if s.length != s.size then [Fetch(a)] else []
  }

  /** The comparison step: each archive fetched again when its length differs; the rest hangs on the country archive alone. */
  function Freshen(ip: ArchiveState, ns: ArchiveState, country: ArchiveState, dbReadable: bool): seq<UpdateAction> {
    if ip.status == 200 && ns.status == 200 && country.status == 200 then
      FetchIfChanged(Ipout, ip) + FetchIfChanged(Nsout, ns) +
      (if country.length != country.size then [Fetch(Country)]
       else [UpToDate] + (if dbReadable then [] else [CreateDatabase]))
    else [ArchivesMissing]
  }

  /** `updateCFdb`: fetch missing archives, then compare sizes with the HEAD replies, unless the host cannot be reached. */
  function UpdatePlan(ip: ArchiveState, ns: ArchiveState, country: ArchiveState, reachable: bool, dbReadable: bool): seq<UpdateAction> {
    Missing(ip, ns, country) + (if reachable then Freshen(ip, ns, country, dbReadable) else [Unreachable])
  }

  /** The first fetches: every unreadable archive, in the order ipout, nsout, country. */
  function Missing(ip: ArchiveState, ns: ArchiveState, country: ArchiveState): seq<UpdateAction> {
    FetchIfMissing(Ipout, ip) + FetchIfMissing(Nsout, ns) + FetchIfMissing(Country, country)
  }

  /** The plan fetches the missing archives first, then compares, or stops at an unreachable host. */
  lemma PlanOrder(ip: ArchiveState, ns: ArchiveState, country: ArchiveState, reachable: bool, dbReadable: bool)
    ensures |Missing(ip, ns, country)| <= |UpdatePlan(ip, ns, country, reachable, dbReadable)|
    ensures UpdatePlan(ip, ns, country, reachable, dbReadable)[..|Missing(ip, ns, country)|] == Missing(ip, ns, country)
    ensures !reachable ==> UpdatePlan(ip, ns, country, reachable, dbReadable)[|Missing(ip, ns, country)|..] == [Unreachable]
    ensures reachable ==>
      UpdatePlan(ip, ns, country, reachable, dbReadable)[|Missing(ip, ns, country)|..] == Freshen(ip, ns, country, dbReadable)
  {
    var m := Missing(ip, ns, country);
    var plan := UpdatePlan(ip, ns, country, reachable, dbReadable);
    assert plan[..|m|] == m;
  }

  /** With all three replies at 200, an archive is fetched again exactly when its length differs from its size. */
  lemma FreshenFetches(ip: ArchiveState, ns: ArchiveState, country: ArchiveState, dbReadable: bool)
    requires ip.status == 200 && ns.status == 200 && country.status == 200
    ensures Fetch(Ipout) in Freshen(ip, ns, country, dbReadable) <==> ip.length != ip.size
    ensures Fetch(Nsout) in Freshen(ip, ns, country, dbReadable) <==> ns.length != ns.size
    ensures Fetch(Country) in Freshen(ip, ns, country, dbReadable) <==> country.length != country.size
  {
  }

  /**
   * The database is created exactly when all replies are 200, the country archive is unchanged and
   * no database is readable; the ipout and nsout comparisons play no part.
   */
  lemma CreateOnCountryAlone(ip: ArchiveState, ns: ArchiveState, country: ArchiveState, dbReadable: bool)
    ensures CreateDatabase in Freshen(ip, ns, country, dbReadable) <==>
      ip.status == 200 && ns.status == 200 && country.status == 200 && country.length == country.size && !dbReadable
    ensures UpToDate in Freshen(ip, ns, country, dbReadable) <==>
      ip.status == 200 && ns.status == 200 && country.status == 200 && country.length == country.size
  {
  }

  /** An unreadable archive is fetched before anything is compared, in the order ipout, nsout, country. */
  lemma MissingFirst(ip: ArchiveState, ns: ArchiveState, country: ArchiveState, reachable: bool, dbReadable: bool)
    requires !ip.readable && !ns.readable && !country.readable
    ensures UpdatePlan(ip, ns, country, reachable, dbReadable)[..3] == [Fetch(Ipout), Fetch(Nsout), Fetch(Country)]
  {
  }
}
