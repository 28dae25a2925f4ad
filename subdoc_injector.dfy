/**
 * The Office subdocument injector: a ZIP archive that can replace and delete entries in place
 * (`UpdateableZipFile`), the splicing of a subDocument element into `word/settings.xml`, the
 * reinfection that swaps the relationship id, and the relationships part written beside it
 * (an OPC relationships part, ECMA-376 Part 2).
 *
 * An archive is the ordered sequence of its entries, each a name and its contents; the script runs
 * under Python 2, where file contents are `str`, so contents are strings here.
 */
module SubdocInjector {
  import opened Outcomes
  import opened Text

  datatype Entry = Entry(name: string, data: string)

  /** What `_replace` holds for a name: the temporary file collecting new contents, or the delete marker. */
  datatype Pending = Buffer(data: string) | DeleteMarker

  /** `namelist()`, in archive order. */
  function Names(entries: seq<Entry>): (ns: seq<string>)
    ensures |ns| == |entries|
  {
    seq(|entries|, k requires 0 <= k < |entries| => entries[k].name)
  }

  predicate Distinct(ns: seq<string>) {
    forall i, j :: 0 <= i < j < |ns| ==> ns[i] != ns[j]
  }

  /** `read(name)`: the contents of the last entry of that name, as `ZipFile` looks names up. */
  function Read(entries: seq<Entry>, name: string): string
  {
    if entries == [] then ""
    else if entries[|entries| - 1].name == name then entries[|entries| - 1].data
    else Read(entries[..|entries| - 1], name)
  }

  /** In an archive without repeated names, reading an entry's name gives that entry's contents. */
  lemma {:induction false} ReadDistinct(entries: seq<Entry>, k: nat)
    requires k < |entries| && Distinct(Names(entries))
    ensures Read(entries, entries[k].name) == entries[k].data
    decreases |entries|
  {
    var n := |entries| - 1;
    if k < n {
      assert Names(entries)[k] != Names(entries)[n];
      assert Names(entries[..n]) == Names(entries)[..n];
      ReadDistinct(entries[..n], k);
    }
  }

  /** The contents a pending buffer holds so far; a new temporary file starts empty. */
  function Buffered(replace: map<string, Pending>, name: string): string {
    if name in replace && replace[name].Buffer? then replace[name].data else ""
  }

  /** The result of `writestr`: `AttributeError` when the pending entry is the delete marker, which has no `write`. */
  datatype WriteOutcome = Written | AttributeError

  // ---------------------------------------------------------------------------------------------
  // The rebuild
  // ---------------------------------------------------------------------------------------------

  /** The new archive so far and what is left of `_replace`. */
  datatype Rebuilt = Rebuilt(out: seq<Entry>, pending: map<string, Pending>)

  /** One pass of the rebuild loop over `infolist()`. */
  function Step(r: Rebuilt, item: Entry, archive: seq<Entry>): Rebuilt {
    if item.name in r.pending then
      match r.pending[item.name]
      case DeleteMarker => Rebuilt(r.out, r.pending - {item.name})
      case Buffer(d) => Rebuilt(r.out + [Entry(item.name, d)], r.pending - {item.name})
    else Rebuilt(r.out + [Entry(item.name, Read(archive, item.name))], r.pending)
  }

  /** The rebuild loop over `items`, reading unreplaced contents from `archive`. */
  function Rebuild(items: seq<Entry>, pending: map<string, Pending>, archive: seq<Entry>): Rebuilt
  {
    if items == [] then Rebuilt([], pending)
    else Step(Rebuild(items[..|items| - 1], pending, archive), items[|items| - 1], archive)
  }

  function NameSet(items: seq<Entry>): set<string> {
    set k | 0 <= k < |items| :: items[k].name
  }

  /** Every name the loop visits is taken out of `_replace`; every other name stays as it was. */
  lemma {:induction false} RebuildPending(items: seq<Entry>, pending: map<string, Pending>, archive: seq<Entry>)
    ensures Rebuild(items, pending, archive).pending == pending - NameSet(items)
    decreases |items|
  {
    if items != [] {
      var n := |items| - 1;
      RebuildPending(items[..n], pending, archive);
      assert NameSet(items) == NameSet(items[..n]) + {items[n].name} by {
        assert forall k :: 0 <= k < n ==> items[..n][k] == items[k];
      }
    }
  }

  /** The rebuild keeps at most one entry per entry visited and introduces no new name. */
  lemma {:induction false} RebuildNoNewNames(items: seq<Entry>, pending: map<string, Pending>, archive: seq<Entry>)
    ensures |Rebuild(items, pending, archive).out| <= |items|
    ensures forall e :: e in Rebuild(items, pending, archive).out ==> e.name in NameSet(items)
    decreases |items|
  {
    if items != [] {
      var n := |items| - 1;
      RebuildNoNewNames(items[..n], pending, archive);
      assert forall k :: 0 <= k < n ==> items[..n][k] == items[k];
      assert NameSet(items[..n]) <= NameSet(items);
    }
  }

  /** What one entry becomes when nothing earlier in the loop touched its name. */
  function Kept(e: Entry, pending: map<string, Pending>, archive: seq<Entry>): seq<Entry> {
    if e.name in pending then
      match pending[e.name]
      case DeleteMarker => []
      case Buffer(d) => [Entry(e.name, d)]
    else [Entry(e.name, Read(archive, e.name))]
  }

  /** The entries one by one, each deleted, replaced or kept as `_replace` says. */
  function Apply(items: seq<Entry>, pending: map<string, Pending>, archive: seq<Entry>): seq<Entry>
  {
    if items == [] then []
    else Apply(items[..|items| - 1], pending, archive) + Kept(items[|items| - 1], pending, archive)
  }

  /**
   * Without repeated names the rebuild is entry by entry: in the original order, marked entries
   * dropped, replaced ones with their pending contents, the others read back as they were.
   */
  lemma {:induction false} RebuildDistinct(items: seq<Entry>, pending: map<string, Pending>, archive: seq<Entry>)
    requires Distinct(Names(items))
    ensures Rebuild(items, pending, archive).out == Apply(items, pending, archive)
    decreases |items|
  {
    if items != [] {
      var n := |items| - 1;
      assert Names(items[..n]) == Names(items)[..n];
      RebuildDistinct(items[..n], pending, archive);
      RebuildPending(items[..n], pending, archive);
      assert items[n].name !in NameSet(items[..n]) by {
        forall k | 0 <= k < n ensures items[..n][k].name != items[n].name {
          assert Names(items)[k] != Names(items)[n];
        }
      }
    }
  }

  /**
   * With a repeated name the first copy takes the pending change and the second is copied: a
   * deleted name comes back once.
   */
  lemma DuplicateSurvivesDelete()
    ensures Rebuild([Entry("a", "1"), Entry("a", "2")], map["a" := DeleteMarker], [Entry("a", "1"), Entry("a", "2")]).out ==
      [Entry("a", "2")]
  {
    var items := [Entry("a", "1"), Entry("a", "2")];
    assert items[..1] == [Entry("a", "1")];
    assert items[..1][..0] == [];
    assert Read(items, "a") == "2";
  }

  /** The entries with buffered new contents for the names `pending` holds. */
  function Patch(entries: seq<Entry>, pending: map<string, Pending>): (r: seq<Entry>)
    ensures |r| == |entries|
  {
    seq(|entries|, k requires 0 <= k < |entries| =>
      if entries[k].name in pending && pending[entries[k].name].Buffer? then Entry(entries[k].name, pending[entries[k].name].data)
      else entries[k])
  }

  lemma PatchSnoc(entries: seq<Entry>, e: Entry, pending: map<string, Pending>)
    ensures Patch(entries + [e], pending) == Patch(entries, pending) + Patch([e], pending)
  {
  }

  /** With only buffers pending and every entry reading back as itself, rebuilding is patching. */
  lemma {:induction false} ApplyBuffers(items: seq<Entry>, pending: map<string, Pending>, archive: seq<Entry>)
    requires forall n :: n in pending ==> pending[n].Buffer?
    requires forall k :: 0 <= k < |items| ==> Read(archive, items[k].name) == items[k].data
    ensures Apply(items, pending, archive) == Patch(items, pending)
    decreases |items|
  {
    if items != [] {
      var n := |items| - 1;
      ApplyBuffers(items[..n], pending, archive);
      PatchSnoc(items[..n], items[n], pending);
      assert items[..n] + [items[n]] == items;
    }
  }

  /** The `_replace` table and the flag of the with-block, over an archive of entries. */
  class UpdateableZipFile {
    var entries: seq<Entry>
    var replace: map<string, Pending>
    var allowUpdates: bool

    constructor (entries: seq<Entry>)
      ensures this.entries == entries && replace == map[] && !allowUpdates
    {
      this.entries := entries;
      replace := map[];
      allowUpdates := false;
    }

    /**
     * Inside the with-block an existing name gets its bytes appended to its pending buffer and the
     * archive is left alone; otherwise the entry is appended to the archive.
     */
    method WriteStr(name: string, bytes: string) returns (outcome: WriteOutcome)
      modifies this
      ensures allowUpdates == old(allowUpdates)
      ensures old(allowUpdates) && name in Names(old(entries)) ==> entries == old(entries)
      ensures old(allowUpdates) && name in Names(old(entries)) && name in old(replace) && old(replace)[name].DeleteMarker? ==>
        outcome == AttributeError && replace == old(replace)
      ensures old(allowUpdates) && name in Names(old(entries)) && !(name in old(replace) && old(replace)[name].DeleteMarker?) ==>
        outcome == Written && replace == old(replace)[name := Buffer(Buffered(old(replace), name) + bytes)]
      ensures !(old(allowUpdates) && name in Names(old(entries))) ==>
        outcome == Written && entries == old(entries) + [Entry(name, bytes)] && replace == old(replace)
    {
      if allowUpdates && name in Names(entries) {
        var temp: Pending := if name in replace then replace[name] else Buffer("");
        replace := replace[name := temp];
        match temp
        case DeleteMarker =>
          outcome := AttributeError;
        case Buffer(d) =>
          replace := replace[name := Buffer(d + bytes)];
          outcome := Written;
      } else {
        entries := entries + [Entry(name, bytes)];
        outcome := Written;
      }
    }

    /** Marks the path for deletion, replacing any buffer pending for it. */
    method RemoveFile(path: string)
      modifies this
      ensures replace == old(replace)[path := DeleteMarker]
      ensures entries == old(entries) && allowUpdates == old(allowUpdates)
    {
      replace := replace[path := DeleteMarker];
    }

    /** Entering the with-block allows updates. */
    method Enter()
      modifies this
      ensures allowUpdates && entries == old(entries) && replace == old(replace)
    {
      allowUpdates := true;
    }

    /** Copies the archive entry by entry into the new one, applying and consuming `_replace`. */
    method RebuildZip()
      modifies this
      ensures entries == Rebuild(old(entries), old(replace), old(entries)).out
      ensures replace == Rebuild(old(entries), old(replace), old(entries)).pending
      ensures allowUpdates == old(allowUpdates)
    {
      var out: seq<Entry> := [];
      var i := 0;
      while i < |entries|
        invariant i <= |entries| && entries == old(entries) && allowUpdates == old(allowUpdates)
        invariant Rebuilt(out, replace) == Rebuild(entries[..i], old(replace), entries)
      {
        var item := entries[i];
        if item.name in replace {
          var replacement := replace[item.name];
          match replacement
          case DeleteMarker =>
            replace := replace - {item.name};
          case Buffer(d) =>
            replace := replace - {item.name};
            out := out + [Entry(item.name, d)];
        } else {
          out := out + [Entry(item.name, Read(entries, item.name))];
        }
        assert entries[..i + 1][..i] == entries[..i];
        i := i + 1;
      }
      assert entries[..i] == entries;
      entries := out;
    }

    /** Leaving the with-block rebuilds the archive when anything is pending, then disallows updates. */
    method Exit()
      modifies this
      ensures !allowUpdates
      ensures |old(replace)| > 0 ==> entries == Rebuild(old(entries), old(replace), old(entries)).out
      ensures |old(replace)| > 0 ==> replace == Rebuild(old(entries), old(replace), old(entries)).pending
      ensures |old(replace)| == 0 ==> entries == old(entries) && replace == old(replace)
    {
      if |replace| > 0 {
        RebuildZip();
      }
      allowUpdates := false;
    }
  }

  const SettingsName: string := "word/settings.xml"
  const RelsName: string := "word/_rels/settings.xml.rels"

  lemma NamesDiffer()
    ensures SettingsName != RelsName
  {
    assert SettingsName[5] != RelsName[5];
  }

  lemma NamesSnoc(entries: seq<Entry>, e: Entry)
    ensures Names(entries + [e]) == Names(entries) + [e.name]
  {
  }

  lemma DistinctSnoc(entries: seq<Entry>, e: Entry)
    requires Distinct(Names(entries)) && e.name !in Names(entries)
    ensures Distinct(Names(entries + [e]))
  {
    NamesSnoc(entries, e);
  }

  /** Every entry of an archive without repeated names reads back as itself. */
  lemma ReadsBack(entries: seq<Entry>)
    requires Distinct(Names(entries))
    ensures forall k :: 0 <= k < |entries| ==> Read(entries, entries[k].name) == entries[k].data
  {
    forall k | 0 <= k < |entries| ensures Read(entries, entries[k].name) == entries[k].data {
      ReadDistinct(entries, k);
    }
  }

  /** The rebuild of an archive with only buffers pending, when no name repeats. */
  lemma RebuildBuffers(entries: seq<Entry>, pending: map<string, Pending>)
    requires Distinct(Names(entries)) && forall n :: n in pending ==> pending[n].Buffer?
    ensures Rebuild(entries, pending, entries).out == Patch(entries, pending)
  {
    RebuildDistinct(entries, pending, entries);
    ReadsBack(entries);
    ApplyBuffers(entries, pending, entries);
  }

  /** A name absent from the archive leaves patching alone. */
  lemma PatchAbsent(entries: seq<Entry>, pending: map<string, Pending>, e: Entry)
    requires e.name !in pending
    ensures Patch(entries + [e], pending) == Patch(entries, pending) + [e]
  {
    PatchSnoc(entries, e, pending);
  }

  /**
   * The with-block of the injection: the new settings text and the relationships part written into
   * a copy of the document. Without repeated names, each part either replaces the entry of that
   * name in place or, when absent, is appended; settings first.
   */
  method Inject(archive: seq<Entry>, settingsxml: string, rels: string) returns (result: seq<Entry>)
    ensures Distinct(Names(archive)) && SettingsName in Names(archive) && RelsName in Names(archive) ==>
      result == Patch(archive, map[SettingsName := Buffer(settingsxml), RelsName := Buffer(rels)])
    ensures Distinct(Names(archive)) && SettingsName in Names(archive) && RelsName !in Names(archive) ==>
      result == Patch(archive, map[SettingsName := Buffer(settingsxml)]) + [Entry(RelsName, rels)]
    ensures Distinct(Names(archive)) && SettingsName !in Names(archive) && RelsName in Names(archive) ==>
      result == Patch(archive, map[RelsName := Buffer(rels)]) + [Entry(SettingsName, settingsxml)]
    ensures SettingsName !in Names(archive) && RelsName !in Names(archive) ==>
      result == archive + [Entry(SettingsName, settingsxml), Entry(RelsName, rels)]
  {
    NamesDiffer();
    var inj := new UpdateableZipFile(archive);
    inj.Enter();
    var o1 := inj.WriteStr(SettingsName, settingsxml);
    var o2 := inj.WriteStr(RelsName, rels);
    ghost var written := inj.entries;
    ghost var pending := inj.replace;
    inj.Exit();
    result := inj.entries;
    assert "" + settingsxml == settingsxml && "" + rels == rels;
    if Distinct(Names(archive)) {
      if SettingsName in Names(archive) && RelsName in Names(archive) {
        RebuildBuffers(archive, pending);
      } else if SettingsName in Names(archive) {
        NamesSnoc(archive, Entry(RelsName, rels));
        DistinctSnoc(archive, Entry(RelsName, rels));
        RebuildBuffers(written, pending);
        PatchAbsent(archive, pending, Entry(RelsName, rels));
      } else if RelsName in Names(archive) {
        NamesSnoc(archive, Entry(SettingsName, settingsxml));
        DistinctSnoc(archive, Entry(SettingsName, settingsxml));
        RebuildBuffers(written, pending);
        PatchAbsent(archive, pending, Entry(SettingsName, settingsxml));
      }
    }
    if SettingsName !in Names(archive) && RelsName !in Names(archive) {
      NamesSnoc(archive, Entry(SettingsName, settingsxml));
    }
  }

  // ---------------------------------------------------------------------------------------------
  // The settings text
  // ---------------------------------------------------------------------------------------------

  /** The errors `infectDoc` can stop with: `open` of a missing part, `index`, and an index past a `split`. */
  datatype InjectError = KeyError | ValueError | IndexError

  const EditHead: string := "/><w:p><w:subDoc r:id=\"rId"
  const EditTail: string := "\"/></w:p>"
  const EditTemplate: string := EditHead + "{}" + EditTail

  /** The element spliced in, ending the element it interrupts: the template with the identifier. */
  function EditPos(identifier: string): (e: string)
    ensures Format(EditTemplate, [identifier]) == Some(e)
  {
    assert NoBraces(EditHead) && NoBraces(EditTail);
    FormatOne(EditHead, EditTail, identifier);
    EditHead + identifier + EditTail
  }

  /** A first injection: the subDocument element put right at the first `/>`; `ValueError` without one. */
  function InjectSettings(docx: string, identifier: string): (r: Result<string, InjectError>)
  {
    match Find(docx, "/>")
    case None => Err(ValueError)
    case Some(i) => Ok(docx[..i] + EditPos(identifier) + docx[i..])
  }

  /**
   * The splice fails exactly when the text has no `/>`; otherwise taking the element back out
   * gives the original text, and the first `/>` is still where it was: the element's own.
   */
  lemma InjectSettingsSplice(docx: string, identifier: string)
    ensures InjectSettings(docx, identifier).Err? <==> !Contains(docx, "/>")
    ensures Contains(docx, "/>") ==>
      Find(InjectSettings(docx, identifier).value, "/>") == Find(docx, "/>")
    ensures Contains(docx, "/>") ==>
      InjectSettings(docx, identifier).value[..Find(docx, "/>").value] +
      InjectSettings(docx, identifier).value[Find(docx, "/>").value + |EditPos(identifier)|..] == docx
  {
    if Contains(docx, "/>") {
      var i := Find(docx, "/>").value;
      var pre := docx[..i];
      var e := EditPos(identifier);
      var r := pre + e + docx[i..];
      NoEarlierOccurrence(docx, "/>", i);
      NoCloseAfterSlash(pre);
      EditStartsClose(identifier);
      SpliceParts(pre, "/>", e[2..], docx[i..]);
      FindAfterPrefix(pre, "/>", e[2..] + docx[i..]);
      assert pre + docx[i..] == docx;
    }
  }

  /** The spliced element opens with the `/>` of the element it interrupts. */
  lemma EditStartsClose(identifier: string)
    ensures EditPos(identifier) == "/>" + EditPos(identifier)[2..]
  {
  }

  /** A text spliced between `pre` and `rest` is regrouped around its first part, and cut back out. */
  lemma SpliceParts(pre: string, a: string, b: string, rest: string)
    ensures pre + (a + b) + rest == pre + a + (b + rest)
    ensures (pre + (a + b) + rest)[..|pre|] == pre
    ensures (pre + (a + b) + rest)[|pre| + |a + b|..] == rest
  {
  }

  /** Text without `/>` still has none with one more `/` at its end. */
  lemma NoCloseAfterSlash(a: string)
    requires !Contains(a, "/>")
    ensures !Contains(a + "/>"[..1], "/>")
  {
    var t := a + "/>"[..1];
    if Contains(t, "/>") {
      var k := Find(t, "/>").value;
      assert t[k..k + 2] == "/>";
      assert t[k + 1] == '>';
      assert t[|a|] == '/';
      assert k + 2 <= |a|;
      assert t[k..k + 2] == a[k..k + 2];
      OccursContains(a, "/>", k);
    }
  }

  /** `docx.split('r:id=')[1].split('"')[1]`: the value of the first `r:id` attribute; `IndexError` if missing. */
  function OldId(docx: string): (r: Result<string, InjectError>)
  {
    var parts := Split(docx, "r:id=");
    if |parts| < 2 then Err(IndexError)
    else
      var quoted := Split(parts[1], "\"");
      if |quoted| < 2 then Err(IndexError) else Ok(quoted[1])
  }

  /** A reinfection: every occurrence of the old id replaced by the new one. */
  function Reinfect(docx: string, identifier: string): (r: Result<string, InjectError>)
  {
    match OldId(docx)
    case Err(e) => Err(e)
    case Ok(oldid) => Ok(Replace(docx, oldid, "rId" + identifier))
  }

  /**
   * A reinfection fails, with `IndexError`, exactly when no old id is found; otherwise the text is
   * cut at every occurrence of the old id and rejoined with the new one.
   */
  lemma ReinfectSwap(docx: string, identifier: string)
    ensures Reinfect(docx, identifier).Err? <==> OldId(docx).Err?
    ensures Reinfect(docx, identifier).Err? ==> Reinfect(docx, identifier).error == IndexError
    ensures OldId(docx).Ok? && OldId(docx).value != "" ==>
      Reinfect(docx, identifier) == Ok(Join(Split(docx, OldId(docx).value), "rId" + identifier))
  {
    if OldId(docx).Ok? && OldId(docx).value != "" {
      ReplaceIsSplitJoin(docx, OldId(docx).value, "rId" + identifier);
    }
  }

  /** The attribute value that follows the first `r:id=`, read as `OldId` reads it. */
  lemma QuotedValue(x: string, y: string)
    requires '"' !in x
    ensures Split("\"" + x + "\"" + y, "\"")[1] == x
    ensures |Split("\"" + x + "\"" + y, "\"")| >= 2
  {
    var s := "\"" + x + "\"" + y;
    assert "\""[..0] == [];
    assert s == "" + "\"" + (x + "\"" + y);
    FindAfterPrefix("", "\"", x + "\"" + y);
    SplitStep(s, "\"", 0);
    assert s[1..] == x + "\"" + y;
    ContainsChar(x, '"');
    FindAfterPrefix(x, "\"", y);
    SplitStep(x + "\"" + y, "\"", |x|);
    assert (x + "\"" + y)[..|x|] == x;
  }

  /**
   * The id a first injection writes is the id a reinfection finds, when nothing before the first
   * `/>` holds `r:id=` and the identifier holds no quote or `=`.
   */
  lemma OldIdOfInjected(docx: string, identifier: string)
    requires Contains(docx, "/>")
    requires !Contains(docx[..Find(docx, "/>").value], "r:id=")
    requires '"' !in identifier && '=' !in identifier
    ensures OldId(InjectSettings(docx, identifier).value) == Ok("rId" + identifier)
  {
    var i := Find(docx, "/>").value;
    var lead := "/><w:p><w:subDoc ";
    InjectedShape(docx, identifier, i);
    NoIdBeforeAttribute(docx[..i], lead);
    assert "rId"[0] != '"' && "rId"[1] != '"' && "rId"[2] != '"';
    assert "rId"[0] != '=' && "rId"[1] != '=' && "rId"[2] != '=';
    OldIdAfterKey(docx[..i] + lead, "rId" + identifier, docx[i..]);
  }

  /** The injected text, cut around the `r:id=` of the element put in. */
  lemma InjectedShape(docx: string, identifier: string, i: nat)
    requires Find(docx, "/>") == Some(i)
    ensures InjectSettings(docx, identifier).value ==
      docx[..i] + "/><w:p><w:subDoc " + "r:id=" + ("\"" + ("rId" + identifier) + EditTail + docx[i..])
  {
    EditHeadParts();
    Regroup(docx[..i], "/><w:p><w:subDoc ", "r:id=", "\"", "rId", identifier, EditTail, docx[i..]);
  }

  /** After the first `r:id=`, the quoted value is the id `OldId` reads. */
  lemma OldIdAfterKey(front: string, value: string, post: string)
    requires !Contains(front + "r:id="[..4], "r:id=")
    requires '"' !in value && '=' !in value
    ensures OldId(front + "r:id=" + ("\"" + value + EditTail + post)) == Ok(value)
  {
    var rest := "\"" + value + EditTail + post;
    var r := front + "r:id=" + rest;
    FindAfterPrefix(front, "r:id=", rest);
    SplitStep(r, "r:id=", |front|);
    assert r[|front| + 5..] == rest;
    var piece := Split(rest, "r:id=")[0];
    AttributeValuePiece(value, post);
    QuotedValue(value, piece[|value| + 2..]);
    assert piece == "\"" + value + "\"" + piece[|value| + 2..];
  }

  lemma EditHeadParts()
    ensures EditHead == "/><w:p><w:subDoc " + "r:id=" + ("\"" + "rId")
  {
  }

  lemma Regroup(pre: string, lead: string, key: string, q: string, rid: string, id: string, tail: string, post: string)
    ensures pre + (lead + key + (q + rid) + id + tail) + post == pre + lead + key + (q + (rid + id) + tail + post)
  {
  }

  lemma NoIdBeforeAttribute(pre: string, lead: string)
    requires !Contains(pre, "r:id=") && lead == "/><w:p><w:subDoc "
    ensures !Contains(pre + lead + "r:id="[..4], "r:id=")
  {
    var b := lead + "r:id";
    assert "r:id="[..4] == "r:id";
    MissingCharNotContained(b, "r:id=", '=');
    NotContainedConcat(pre, b, "r:id=");
    assert pre + lead + "r:id="[..4] == pre + b;
  }

  /** The first piece after the attribute name starts with the quoted value. */
  lemma AttributeValuePiece(value: string, post: string)
    requires '=' !in value
    ensures StartsWith(Split("\"" + value + EditTail + post, "r:id=")[0], "\"" + value + "\"")
  {
    var lead := "\"" + value + EditTail;
    var s := lead + post;
    var head := "\"" + value + "\"";
    assert '=' !in lead;
    assert s[..|head|] == head;
    SplitFirst(s, "r:id=");
    if Find(s, "r:id=").Some? {
      var k := Find(s, "r:id=").value;
      assert s[k..k + 5][4] == '=';
      EqualsAfter(lead, post, k + 4);
      assert s[..k][..|head|] == head;
    }
  }

  /** In `lead + post` with no `=` in `lead`, every `=` lies in `post`. */
  lemma EqualsAfter(lead: string, post: string, j: nat)
    requires '=' !in lead && j < |lead + post| && (lead + post)[j] == '='
    ensures j >= |lead|
  {
  }

  // ---------------------------------------------------------------------------------------------
  // The relationships part
  // ---------------------------------------------------------------------------------------------

  const XmlDeclaration: string := "<?xml version=\"1.0\"" + " encoding=\"UTF-8\"" + " standalone=\"yes\"?>"
  const OpenXmlBase: string := "http://schemas." + "openxmlformats.org"
  const RelationshipsOpen: string := "<Relationships xmlns=\"" + OpenXmlBase + "/package/2006" + "/relationships\">"
  const SubDocumentType: string := OpenXmlBase + "/officeDocument/2006" + "/relationships/subDocument"
  const TypeAttribute: string := "\" Type=\""
  const TargetAttribute: string := "\"\n\t\t\tTarget=\""
  const RelsHead: string := XmlDeclaration + "\n\t\t" + RelationshipsOpen + "\n\t\t\t<Relationship Id=\"rId"
  const RelsMid: string := TypeAttribute + SubDocumentType + TargetAttribute
  const RelsTail: string := "\"\n\t\t\tTargetMode=\"External\"/>" + "\n\t\t</Relationships>"
  /** `SETRELS`, with its tab indentation. */
  const SetRels: string := RelsHead + "{}" + RelsMid + "{}" + RelsTail

  /** The relationships part: one external subDocument relationship with the identifier and the url as target. */
  function Rels(identifier: string, url: string): (r: string)
    ensures Format(SetRels, [identifier, url]) == Some(r)
  {
    RelsFormat(identifier, url);
    RelsHead + identifier + RelsMid + url + RelsTail
  }

  lemma RelsPieces()
    ensures NoBraces(RelsHead) && NoBraces(RelsMid) && NoBraces(RelsTail)
  {
    RelsHeadPlain();
    RelsMidPlain();
  }

  lemma RelsHeadPlain()
    ensures NoBraces(RelsHead)
  {
    XmlDeclarationPlain();
    RelationshipsOpenPlain();
    assert NoBraces("\n\t\t\t<Relationship Id=\"rId");
  }

  lemma XmlDeclarationPlain()
    ensures NoBraces(XmlDeclaration)
  {
    assert NoBraces("<?xml version=\"1.0\"") && NoBraces(" encoding=\"UTF-8\"");
  }

  lemma RelationshipsOpenPlain()
    ensures NoBraces(RelationshipsOpen)
  {
    assert NoBraces(OpenXmlBase);
  }

  lemma RelsMidPlain()
    ensures NoBraces(RelsMid)
  {
    SubDocumentTypePlain();
    AttributesPlain();
  }

  lemma SubDocumentTypePlain()
    ensures NoBraces(SubDocumentType)
  {
    assert NoBraces(OpenXmlBase);
  }

  lemma AttributesPlain()
    ensures NoBraces(TypeAttribute) && NoBraces(TargetAttribute)
  {
  }

  lemma RelsFormat(identifier: string, url: string)
    ensures Format(SetRels, [identifier, url]) == Some(RelsHead + identifier + RelsMid + url + RelsTail)
  {
    RelsPieces();
    FormatTwo(RelsHead, RelsMid, RelsTail, identifier, url);
  }

  /** The identifier comes right after `Id="rId` and the url is the quoted `Target`. */
  lemma RelsFields(identifier: string, url: string)
    ensures StartsWith(Rels(identifier, url), RelsHead + identifier + TypeAttribute)
    ensures EndsWith(Rels(identifier, url), TargetAttribute + url + RelsTail)
  {
    Framed(RelsHead, identifier, TypeAttribute, SubDocumentType, TargetAttribute, url, RelsTail);
  }

  /** A filled two-field template starts with its head, the first field and the start of the middle piece, and ends with the rest. */
  lemma Framed(h: string, x: string, m1: string, m2: string, m3: string, y: string, t: string)
    ensures StartsWith(h + x + (m1 + m2 + m3) + y + t, h + x + m1)
    ensures EndsWith(h + x + (m1 + m2 + m3) + y + t, m3 + y + t)
  {
    var r := h + x + (m1 + m2 + m3) + y + t;
    assert r == (h + x + m1) + m2 + (m3 + y + t);
    assert r[..|h + x + m1|] == h + x + m1;
    assert r[|h + x + m1 + m2|..] == m3 + y + t;
  }

  // ---------------------------------------------------------------------------------------------
  // `infectDoc`
  // ---------------------------------------------------------------------------------------------

  /** The new settings text: spliced on a first injection, id-swapped on a reinfection. */
  function NewSettings(docx: string, identifier: string, reinfect: bool): Result<string, InjectError> {
    if reinfect then Reinfect(docx, identifier) else InjectSettings(docx, identifier)
  }

  /**
   * `infectDoc` on the copied document: reads `word/settings.xml`, computes the new text and writes
   * it and the relationships part back. Without repeated names, settings are replaced in place and
   * the relationships part replaced or appended.
   */
  method InfectDoc(archive: seq<Entry>, url: string, identifier: string, reinfect: bool) returns (r: Result<seq<Entry>, InjectError>)
    ensures SettingsName !in Names(archive) ==> r == Err(KeyError)
    ensures SettingsName in Names(archive) && NewSettings(Read(archive, SettingsName), identifier, reinfect).Err? ==>
      r == Err(NewSettings(Read(archive, SettingsName), identifier, reinfect).error)
    ensures SettingsName in Names(archive) && NewSettings(Read(archive, SettingsName), identifier, reinfect).Ok? ==> r.Ok?
    ensures (Distinct(Names(archive)) && SettingsName in Names(archive) && RelsName in Names(archive) &&
             NewSettings(Read(archive, SettingsName), identifier, reinfect).Ok?) ==>
      r == Ok(Patch(archive, map[SettingsName := Buffer(NewSettings(Read(archive, SettingsName), identifier, reinfect).value),
                           RelsName := Buffer(Rels(identifier, url))]))
    ensures (Distinct(Names(archive)) && SettingsName in Names(archive) && RelsName !in Names(archive) &&
             NewSettings(Read(archive, SettingsName), identifier, reinfect).Ok?) ==>
      r == Ok(Patch(archive, map[SettingsName := Buffer(NewSettings(Read(archive, SettingsName), identifier, reinfect).value)]) +
              [Entry(RelsName, Rels(identifier, url))])
  {
    if SettingsName !in Names(archive) {
      return Err(KeyError);
    }
    var docx := Read(archive, SettingsName);
    var settingsxml := NewSettings(docx, identifier, reinfect);
    if settingsxml.Err? {
      return Err(settingsxml.error);
    }
    var result := Inject(archive, settingsxml.value, Rels(identifier, url));
    return Ok(result);
  }
}
