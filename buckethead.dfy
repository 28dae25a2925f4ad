/**
 * The S3 bucket enumerator: bucket-name permutations of a domain, the region option, the
 * classification of `aws s3 ls` output into existing and listable buckets, the work queue of
 * (region, bucket) pairs, and the keyword grep over listable buckets.
 *
 * The list of valid regions is a parameter (`s3Regions`); the CLI output of each probe is an input.
 */
module BucketHead {
  import opened Outcomes
  import opened Text

  // ---------------------------------------------------------------------------------------------
  // Region option
  // ---------------------------------------------------------------------------------------------

  /** `[x.strip() for x in parts]`. */
  function StripAll(parts: seq<string>): (r: seq<string>)
    ensures |r| == |parts|
    ensures forall k :: 0 <= k < |parts| ==> r[k] == Strip(parts[k], UnicodeWhitespace)
  {
    seq(|parts|, k requires 0 <= k < |parts| => Strip(parts[k], UnicodeWhitespace))
  }

  /** The region names given on the command line: the comma-separated items, each stripped. */
  function RegionItems(regions: string): (items: seq<string>)
    ensures |items| >= 1
  {
    StripAll(Split(regions, ","))
  }

  /**
   * `check_region_choice`: every valid region when "all" is among the items, the items when each
   * is a valid region, and otherwise exit status 1.
   */
  function RegionChoice(regions: string, s3Regions: seq<string>): (r: Result<seq<string>, nat>)
    ensures r.Ok? ==> forall x :: x in r.value ==> x in s3Regions
    ensures r.Err? <==> "all" !in RegionItems(regions) && exists x :: x in RegionItems(regions) && x !in s3Regions
    ensures r.Err? ==> r.error == 1
    ensures r.Ok? && "all" !in RegionItems(regions) ==> r.value == RegionItems(regions)
  {
    var items := RegionItems(regions);
    if "all" in items then Ok(s3Regions)
    else if !(forall x :: x in items ==> x in s3Regions) then Err(1)
    else Ok(items)
  }

  /** "all" anywhere among the items, even next to invalid names, selects every region. */
  lemma AllSelectsEveryRegion(regions: string, s3Regions: seq<string>)
    requires "all" in RegionItems(regions)
    ensures RegionChoice(regions, s3Regions) == Ok(s3Regions)
  {
  }

  /** The default option value "all" selects every region. */
  lemma DefaultRegions(s3Regions: seq<string>)
    ensures RegionChoice("all", s3Regions) == Ok(s3Regions)
  {
    AllItems();
    assert "all" in ["all"];
  }

  lemma AllItems()
    ensures RegionItems("all") == ["all"]
  {
    AllNoComma();
    AllStripped();
    SingleItem("all");
  }

  lemma AllNoComma()
    ensures ',' !in "all"
  {
  }

  lemma AllStripped()
    ensures Strip("all", UnicodeWhitespace) == "all"
  {
    AllEnds();
    StripKeeps("all", UnicodeWhitespace);
  }

  lemma AllEnds()
    ensures "all"[0] !in UnicodeWhitespace && "all"[2] !in UnicodeWhitespace
  {
  }

  /** A text without a comma and without surrounding whitespace is a single item. */
  lemma SingleItem(x: string)
    requires ',' !in x && Strip(x, UnicodeWhitespace) == x
    ensures RegionItems(x) == [x]
  {
    ContainsChar(x, ',');
    SplitSingle(x, ",");
  }

  /**
   * A comma-joined list of valid region names, none of them "all" and none with a comma or
   * surrounding whitespace, is accepted and returned as it was given.
   */
  lemma RegionListRoundTrip(names: seq<string>, s3Regions: seq<string>)
    requires |names| >= 1
    requires forall k :: 0 <= k < |names| ==> names[k] in s3Regions && names[k] != "all"
    requires forall k :: 0 <= k < |names| ==> ',' !in names[k] && Strip(names[k], UnicodeWhitespace) == names[k]
    ensures RegionChoice(Join(names, ","), s3Regions) == Ok(names)
  {
    JoinedItems(names);
    var items := RegionItems(Join(names, ","));
    assert "all" !in items;
    assert forall x :: x in items ==> x in s3Regions;
  }

  /** The items of a comma-joined list of bare names are those names. */
  lemma JoinedItems(names: seq<string>)
    requires |names| >= 1
    requires forall k :: 0 <= k < |names| ==> ',' !in names[k] && Strip(names[k], UnicodeWhitespace) == names[k]
    ensures RegionItems(Join(names, ",")) == names
  {
    SplitJoin(names, ',');
  }

  // ---------------------------------------------------------------------------------------------
  // Bucket-name permutations
  // ---------------------------------------------------------------------------------------------

  /** `".".join(domain.split(".")[:-1])`: the domain without its last label. */
  function Rootword(domain: string): string {
    DropLast(domain, ".")
  }

  /** The root word is "" for a domain without a dot, else the text before the domain's last dot. */
  lemma RootwordShape(domain: string)
    ensures '.' !in domain ==> Rootword(domain) == ""
    ensures '.' in domain ==> |Rootword(domain)| < |domain| && domain[..|Rootword(domain)|] == Rootword(domain)
    ensures '.' in domain ==> domain[|Rootword(domain)|] == '.' && '.' !in domain[|Rootword(domain)| + 1..]
  {
    DropLastPiece(domain, '.');
  }

  /** The seven names one affix contributes. */
  function Forms(affix: string, domain: string, root: string): set<string> {
    {affix + "." + domain, affix + "." + root, affix + "-" + root, affix + domain, affix + root,
     root + "-" + affix, root + affix}
  }

  /** The names all the affixes contribute. */
  function AffixNames(affixes: seq<string>, domain: string, root: string): set<string>
  {
    if affixes == [] then {}
    else AffixNames(affixes[..|affixes| - 1], domain, root) + Forms(affixes[|affixes| - 1], domain, root)
  }

  /** The set `create_bucket_list` builds. */
  function BucketNames(domain: string, affixes: seq<string>): set<string> {
    {domain, Rootword(domain)} + AffixNames(affixes, domain, Rootword(domain))
  }

  /** A name comes from the affixes exactly when it is one of the forms of some affix. */
  lemma {:induction false} AffixNamesIff(affixes: seq<string>, domain: string, root: string, x: string)
    ensures x in AffixNames(affixes, domain, root) <==> exists a :: a in affixes && x in Forms(a, domain, root)
    decreases |affixes|
  {
    if affixes != [] {
      var front := affixes[..|affixes| - 1];
      AffixNamesIff(front, domain, root, x);
      assert affixes == front + [affixes[|affixes| - 1]];
    }
  }

  lemma FormsSize(affix: string, domain: string, root: string)
    ensures |Forms(affix, domain, root)| <= 7
  {
    var a, b, c, d := {affix + "." + domain}, {affix + "." + root}, {affix + "-" + root}, {affix + domain};
    var e, f, g := {affix + root}, {root + "-" + affix}, {root + affix};
    assert Forms(affix, domain, root) == a + b + c + d + e + f + g;
  }

  lemma {:induction false} AffixNamesSize(affixes: seq<string>, domain: string, root: string)
    ensures |AffixNames(affixes, domain, root)| <= 7 * |affixes|
    decreases |affixes|
  {
    if affixes != [] {
      AffixNamesSize(affixes[..|affixes| - 1], domain, root);
      FormsSize(affixes[|affixes| - 1], domain, root);
    }
  }

  /**
   * The permutations hold the domain, its root word and every form of every affix, and nothing
   * else.
   */
  lemma BucketNamesIff(domain: string, affixes: seq<string>, x: string)
    ensures x in BucketNames(domain, affixes) <==>
      x == domain || x == Rootword(domain) || exists a :: a in affixes && x in Forms(a, domain, Rootword(domain))
  {
    AffixNamesIff(affixes, domain, Rootword(domain), x);
  }

  /** At most two names plus seven per affix (fewer when forms coincide). */
  lemma BucketNamesSize(domain: string, affixes: seq<string>)
    ensures |BucketNames(domain, affixes)| <= 2 + 7 * |affixes|
  {
    AffixNamesSize(affixes, domain, Rootword(domain));
    assert {domain, Rootword(domain)} == {domain} + {Rootword(domain)};
  }

  lemma GoogleRoot()
    ensures Rootword("google.com") == "google"
  {
    var parts := ["google", "com"];
    assert parts[1..] == ["com"];
    assert Join(parts, ".") == "google" + "." + "com";
    assert "google" + "." + "com" == "google.com";
    SplitJoin(parts, '.');
    assert parts[..1] == ["google"];
  }

  lemma GoogleForms()
    ensures Forms("01", "google.com", "google") ==
      {"01.google.com", "01.google", "01-google", "01google.com", "01google", "google-01", "google01"}
  {
    assert "01" + "." + "google.com" == "01.google.com";
    assert "01" + "." + "google" == "01.google";
    assert "01" + "-" + "google" == "01-google";
    assert "01" + "google.com" == "01google.com";
    assert "01" + "google" == "01google";
    assert "google" + "-" + "01" == "google-01";
    assert "google" + "01" == "google01";
  }

  /** The documented example: "google.com" with the affix "01" gives exactly the nine listed names. */
  lemma GoogleExample()
    ensures BucketNames("google.com", ["01"]) ==
      {"google.com", "google", "01.google.com", "01.google", "01-google", "01google", "01google.com",
       "google-01", "google01"}
  {
    GoogleRoot();
    GoogleForms();
    assert ["01"][..0] == [];
    assert AffixNames(["01"], "google.com", "google") == Forms("01", "google.com", "google");
  }

  /** `create_bucket_list`: the domain, its root word, then the seven forms of each affix in turn. */
  method CreateBucketList(domain: string, affixes: seq<string>) returns (perms: set<string>)
    ensures perms == BucketNames(domain, affixes)
  {
    perms := {};
    perms := perms + {domain};
    var rootword := Join(Split(domain, ".")[..|Split(domain, ".")| - 1], ".");
    perms := perms + {rootword};
    var i := 0;
    while i < |affixes|
      invariant i <= |affixes|
      invariant perms == {domain, rootword} + AffixNames(affixes[..i], domain, rootword)
    {
      var affix := affixes[i];
      perms := perms + {affix + "." + domain};
      perms := perms + {affix + "." + rootword};
      perms := perms + {affix + "-" + rootword};
      perms := perms + {affix + domain};
      perms := perms + {affix + rootword};
      perms := perms + {rootword + "-" + affix};
      perms := perms + {rootword + affix};
      assert affixes[..i + 1][..i] == affixes[..i];
      i := i + 1;
    }
    assert affixes[..i] == affixes;
  }

  /** The names of the domain and of each subdomain, together. */
  function AllNames(domain: string, subdomains: seq<string>, affixes: seq<string>): set<string>
  {
    if subdomains == [] then BucketNames(domain, affixes)
    else AllNames(domain, subdomains[..|subdomains| - 1], affixes) + BucketNames(subdomains[|subdomains| - 1], affixes)
  }

  /** A name is searched exactly when it is a permutation of the domain or of some subdomain. */
  lemma {:induction false} AllNamesIff(domain: string, subdomains: seq<string>, affixes: seq<string>, x: string)
    ensures x in AllNames(domain, subdomains, affixes) <==>
      x in BucketNames(domain, affixes) || exists s :: s in subdomains && x in BucketNames(s, affixes)
    decreases |subdomains|
  {
    if subdomains != [] {
      AllNamesIff(domain, subdomains[..|subdomains| - 1], affixes, x);
      SomeSubdomainSnoc(subdomains, affixes, x);
    }
  }

  /** Some subdomain yields `x` exactly when one before the last does or the last one does. */
  lemma SomeSubdomainSnoc(subdomains: seq<string>, affixes: seq<string>, x: string)
    requires subdomains != []
    ensures (exists s :: s in subdomains && x in BucketNames(s, affixes)) <==>
      (exists s :: s in subdomains[..|subdomains| - 1] && x in BucketNames(s, affixes)) ||
      x in BucketNames(subdomains[|subdomains| - 1], affixes)
  {
    var front := subdomains[..|subdomains| - 1];
    var last := subdomains[|subdomains| - 1];
    assert subdomains == front + [last];
    if exists s :: s in subdomains && x in BucketNames(s, affixes) {
      var s :| s in subdomains && x in BucketNames(s, affixes);
      if s != last {
        assert s in front;
      }
    }
    if exists s :: s in front && x in BucketNames(s, affixes) {
      var s :| s in front && x in BucketNames(s, affixes);
      assert s in subdomains;
    }
  }

  /** The permutations of the domain, then the union with those of each subdomain found. */
  method GenerateBuckets(domain: string, subdomains: seq<string>, affixes: seq<string>) returns (buckets: set<string>)
    ensures buckets == AllNames(domain, subdomains, affixes)
  {
    buckets := CreateBucketList(domain, affixes);
    var i := 0;
    while i < |subdomains|
      invariant i <= |subdomains|
      invariant buckets == AllNames(domain, subdomains[..i], affixes)
    {
      var subucks := CreateBucketList(subdomains[i], affixes);
      buckets := buckets + subucks;
      assert subdomains[..i + 1][..i] == subdomains[..i];
      i := i + 1;
    }
    assert subdomains[..i] == subdomains;
  }

  // ---------------------------------------------------------------------------------------------
  // The work queue
  // ---------------------------------------------------------------------------------------------

  /** The inner loop of the queue fill: one pair per bucket for the given region, in set order. */
  method RegionBlock(region: string, buckets: set<string>) returns (block: seq<(string, string)>)
    ensures |block| == |buckets|
    ensures forall r, b :: multiset(block)[(r, b)] == if r == region && b in buckets then 1 else 0
  {
    block := [];
    var rest := buckets;
    while rest != {}
      invariant rest <= buckets
      invariant |block| + |rest| == |buckets|
      invariant forall r, b :: multiset(block)[(r, b)] == if r == region && b in buckets - rest then 1 else 0
      decreases rest
    {
      var b :| b in rest;
      block := block + [(region, b)];
      rest := rest - {b};
    }
  }

  /**
   * The queue the workers drain: for each region in turn, one pair per bucket. Each pair occurs
   * as often as its region occurs in the region list.
   */
  method FillQueue(regions: seq<string>, buckets: set<string>) returns (queue: seq<(string, string)>)
    ensures |queue| == |regions| * |buckets|
    ensures forall r, b :: multiset(queue)[(r, b)] == if b in buckets then multiset(regions)[r] else 0
  {
    queue := [];
    var i := 0;
    while i < |regions|
      invariant i <= |regions|
      invariant |queue| == i * |buckets|
      invariant forall r, b :: multiset(queue)[(r, b)] == if b in buckets then multiset(regions[..i])[r] else 0
    {
      var block := RegionBlock(regions[i], buckets);
      queue := queue + block;
      assert regions[..i + 1] == regions[..i] + [regions[i]];
      i := i + 1;
    }
    assert regions[..i] == regions;
  }

  /** Every pair in the queue is a listed region with a generated bucket, and every such pair is queued. */
  lemma QueueCovers(regions: seq<string>, buckets: set<string>, queue: seq<(string, string)>, r: string, b: string)
    requires forall r, b :: multiset(queue)[(r, b)] == if b in buckets then multiset(regions)[r] else 0
    ensures (r, b) in queue <==> r in regions && b in buckets
  {
    assert (r, b) in queue <==> multiset(queue)[(r, b)] > 0;
    assert r in regions <==> multiset(regions)[r] > 0;
  }

  // ---------------------------------------------------------------------------------------------
  // Classification of `aws s3 ls` output
  // ---------------------------------------------------------------------------------------------

  const FailMarkers: seq<string> := ["(InvalidBucketName)", "(NoSuchBucket)", "(PermanentRedirect)"]
  const ExistsMarkers: seq<string> := ["(AllAccessDisabled)", "(AccessDenied)", "(InvalidAccessKeyId)"]

  /** `any(x in output for x in markers)`. */
  predicate AnyIn(markers: seq<string>, output: string) {
    exists k :: 0 <= k < |markers| && Contains(output, markers[k])
  }

  /** What one probe's output says about a bucket. */
  datatype Probe = Missing | Exists | Listable

  function Classify(output: string): (p: Probe)
  {
    if AnyIn(FailMarkers, output) then Missing
    else if AnyIn(ExistsMarkers, output) then Exists
    else Listable
  }

  /** A fail marker wins over any exists marker in the same output. */
  lemma FailWins(output: string)
    requires Contains(output, "(NoSuchBucket)") || Contains(output, "(InvalidBucketName)") || Contains(output, "(PermanentRedirect)")
    ensures Classify(output) == Missing
  {
    assert FailMarkers[0] == "(InvalidBucketName)" && FailMarkers[1] == "(NoSuchBucket)" && FailMarkers[2] == "(PermanentRedirect)";
  }

  /** Output without any marker, such as a plain listing, means the bucket is listable. */
  lemma NoMarkerListable(output: string)
    requires forall k :: 0 <= k < |FailMarkers| ==> !Contains(output, FailMarkers[k])
    requires forall k :: 0 <= k < |ExistsMarkers| ==> !Contains(output, ExistsMarkers[k])
    ensures Classify(output) == Listable
  {
  }

  /** An access-denied answer without a fail marker means the bucket exists but cannot be listed. */
  lemma AccessDeniedExists(output: string)
    requires Contains(output, "(AccessDenied)")
    requires forall k :: 0 <= k < |FailMarkers| ==> !Contains(output, FailMarkers[k])
    ensures Classify(output) == Exists
  {
    assert ExistsMarkers[1] == "(AccessDenied)";
  }

  /** The two result lists `ls_s3` appends to; each entry is (bucket, region). */
  class BucketList {
    var existing: seq<(string, string)>
    var listable: seq<(string, string)>

    /** Every listable bucket was also recorded as existing, and never more of them. */
    predicate Valid()
      reads this
    {
      (forall x :: x in listable ==> x in existing) && |listable| <= |existing|
    }

    constructor ()
      ensures existing == [] && listable == [] && Valid()
    {
      existing := [];
      listable := [];
    }

    /**
     * `ls_s3` for one probe. `output` is `None` when the CLI exits with an error, which the worker
     * catches and ignores.
     */
    method LsS3(region: string, domain: string, output: Option<string>)
      requires Valid()
      modifies this
      ensures Valid()
      ensures output.None? || Classify(output.value) == Missing ==> existing == old(existing) && listable == old(listable)
      ensures output.Some? && Classify(output.value) == Exists ==>
        existing == old(existing) + [(domain, region)] && listable == old(listable)
      ensures output.Some? && Classify(output.value) == Listable ==>
        existing == old(existing) + [(domain, region)] && listable == old(listable) + [(domain, region)]
    {
      if output.None? {
        return;
      }
      var out := output.value;
      if !AnyIn(FailMarkers, out) {
        var info := (domain, region);
        if AnyIn(ExistsMarkers, out) {
          existing := existing + [info];
        } else {
          existing := existing + [info];
          listable := listable + [info];
        }
      }
    }
  }

  // ---------------------------------------------------------------------------------------------
  // Keyword grep over listable buckets
  // ---------------------------------------------------------------------------------------------

  /** The keyword a line of the keyword file gives: stripped and lower-cased, none if blank. */
  function KeywordOf(line: string): Option<string> {
    var w := Strip(line, UnicodeWhitespace);
    if w != "" then Some(Lower(w)) else None
  }

  /** `[x.strip().lower() for x in lines if x.strip()]`. */
  function Keywords(lines: seq<string>): (ks: seq<string>)
    ensures |ks| <= |lines|
  {
    Somes(seq(|lines|, k requires 0 <= k < |lines| => KeywordOf(lines[k])))
  }

  /**
   * A keyword is exactly the lower-cased, stripped form of some line that is not blank; so no
   * keyword is empty.
   */
  lemma KeywordsIff(lines: seq<string>, w: string)
    ensures w in Keywords(lines) <==>
      exists k :: 0 <= k < |lines| && Strip(lines[k], UnicodeWhitespace) != "" && w == Lower(Strip(lines[k], UnicodeWhitespace))
    ensures w in Keywords(lines) ==> w != ""
  {
    var marks := seq(|lines|, k requires 0 <= k < |lines| => KeywordOf(lines[k]));
    SomesIff(marks, w);
    if w in Keywords(lines) {
      var k :| 0 <= k < |marks| && marks[k] == Some(w);
      assert KeywordOf(lines[k]) == Some(w);
    }
    if exists k :: 0 <= k < |lines| && Strip(lines[k], UnicodeWhitespace) != "" && w == Lower(Strip(lines[k], UnicodeWhitespace)) {
      var k :| 0 <= k < |lines| && Strip(lines[k], UnicodeWhitespace) != "" && w == Lower(Strip(lines[k], UnicodeWhitespace));
      assert marks[k] == Some(w);
    }
  }

  /** A listing is flagged when some keyword occurs in its lower-cased text. */
  predicate Sensitive(keywords: seq<string>, listing: string) {
    exists k :: 0 <= k < |keywords| && Contains(Lower(listing), keywords[k])
  }

  datatype GrepError = TypeError

  /**
   * The grep test as written under Python 3: the listing is `bytes`, so the first `x in output`
   * with a `str` keyword raises; only an empty keyword list gets through, and then nothing is found.
   */
  function GrepAsWritten(keywords: seq<string>, listing: string): (r: Result<bool, GrepError>)
    ensures r == Ok(false) <==> keywords == []
    ensures r.Err? <==> keywords != []
  {
    if keywords == [] then Ok(false) else Err(TypeError)
  }

  /** As written, no bucket is ever flagged: any keyword at all stops the grep with a TypeError. */
  lemma GrepAsWrittenNeverFlags(keywords: seq<string>, listing: string)
    ensures GrepAsWritten(keywords, listing) != Ok(true)
    ensures Sensitive(["password"], "Password.txt") && GrepAsWritten(["password"], "Password.txt") == Err(TypeError)
  {
    assert ["password"][0] == "password";
    var low := Lower("Password.txt");
    assert low[..8] == "password";
    assert OccursAt(low, "password", 0);
    OccursContains(low, "password", 0);
  }

  /** One recursive listing of a listable bucket. */
  datatype Listing = Listing(domain: string, region: string, output: string)

  /** The bucket a listing reports, if it holds a keyword. */
  function Mark(l: Listing, keywords: seq<string>): Option<(string, string)> {
    if Sensitive(keywords, l.output) then Some((l.domain, l.region)) else None
  }

  function Marks(listings: seq<Listing>, keywords: seq<string>): (m: seq<Option<(string, string)>>)
    ensures |m| == |listings|
  {
    seq(|listings|, k requires 0 <= k < |listings| => Mark(listings[k], keywords))
  }

  /** The listable buckets, in order, whose listing holds a keyword. */
  function Flagged(listings: seq<Listing>, keywords: seq<string>): (r: seq<(string, string)>)
    ensures |r| <= |listings|
  {
    Somes(Marks(listings, keywords))
  }

  /** A bucket is reported exactly when one of its listings holds a keyword. */
  lemma FlaggedIff(listings: seq<Listing>, keywords: seq<string>, d: string, g: string)
    ensures (d, g) in Flagged(listings, keywords) <==>
      exists k :: 0 <= k < |listings| && listings[k].domain == d && listings[k].region == g && Sensitive(keywords, listings[k].output)
  {
    var marks := Marks(listings, keywords);
    SomesIff(marks, (d, g));
    if (d, g) in Flagged(listings, keywords) {
      var k :| 0 <= k < |marks| && marks[k] == Some((d, g));
      assert Mark(listings[k], keywords) == Some((d, g));
    }
    if exists k :: 0 <= k < |listings| && listings[k].domain == d && listings[k].region == g && Sensitive(keywords, listings[k].output) {
      var k :| 0 <= k < |listings| && listings[k].domain == d && listings[k].region == g && Sensitive(keywords, listings[k].output);
      assert marks[k] == Some((d, g));
    }
  }

  lemma MarksSnoc(listings: seq<Listing>, keywords: seq<string>, i: nat)
    requires i < |listings|
    ensures Marks(listings[..i + 1], keywords) == Marks(listings[..i], keywords) + [Mark(listings[i], keywords)]
  {
  }

  lemma SeqStep<T>(done: seq<T>, x: seq<T>, done': seq<T>, before: seq<T>, after: seq<T>)
    requires before == done && done' == done + x && after == before + x
    ensures after == done'
  {
  }

  /** The keyword scan over one lower-cased listing, stopping at the first keyword found. */
  method AnyKeyword(listing: string, keywords: seq<string>) returns (hit: bool)
    ensures hit == Sensitive(keywords, listing)
  {
    var output := Lower(listing);
    hit := false;
    var j := 0;
    while j < |keywords| && !hit
      invariant j <= |keywords|
      invariant hit <==> exists k :: 0 <= k < j && Contains(output, keywords[k])
    {
      hit := Contains(output, keywords[j]);
      j := j + 1;
    }
  }

  /** The grep loop, with the test corrected to compare text with text. */
  method Grep(listings: seq<Listing>, keywords: seq<string>) returns (found: seq<(string, string)>)
    ensures found == Flagged(listings, keywords)
  {
    found := [];
    var i := 0;
    while i < |listings|
      invariant i <= |listings|
      invariant found == Flagged(listings[..i], keywords)
    {
      var hit := AnyKeyword(listings[i].output, keywords);
      ghost var before := found;
      var add: seq<(string, string)> := [];
      if hit {
        add := [(listings[i].domain, listings[i].region)];
      }
      found := found + add;
      MarksSnoc(listings, keywords, i);
      SomesSnoc(Marks(listings[..i], keywords), Mark(listings[i], keywords));
      SeqStep(Flagged(listings[..i], keywords), add, Flagged(listings[..i + 1], keywords), before, found);
      i := i + 1;
    }
    assert listings[..i] == listings;
  }
}
