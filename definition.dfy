/**
 * The operations of pkg/build/types/definition.go. The `io.Writer` they share
 * is modelled as the text written so far: each writer takes it and returns
 * it extended. Ranging over a Go map visits its keys in an order the runtime
 * chooses; the loops below pick any key not yet visited, and return (as a
 * ghost value) the order they happened to take.
 */
module Definition {
  import opened Wrappers
  import opened Strings
  import opened BuildTypes
  import opened Serialization

  const UriError := "build URI must start with prefix:// or prefix: "

  /** `writeSectionIfExists`: appends the section for `s` unless its script is empty. */
  method WriteSectionIfExists(w: string, ident: string, s: Script) returns (w': string)
    ensures w' == w + ScriptSection(ident, s)
  {
    w' := w;
    if |s.script| > 0 {
      w' := w' + ("%" + ident);
      if |s.args| > 0 {
        w' := w' + (" " + s.args);
      }
      w' := w' + ("\n" + s.script + "\n\n");
    }
  }

  /** The body of the `writeFilesIfExists` loop: one entry's block, nothing if it has no transports. */
  method WriteFilesBlock(w: string, entry: Files) returns (w': string)
    ensures w' == w + FilesBlock(entry)
  {
    w' := w;
    if |entry.files| > 0 {
      w' := w' + "%files";
      if |entry.args| > 0 {
        w' := w' + (" " + entry.args);
      }
      w' := w' + "\n";
      ghost var start := w';
      for j := 0 to |entry.files|
        invariant w' == start + TransportLines(entry.files[..j])
      {
        var ft := entry.files[j];
        w' := w' + ("\t" + ft.src + "\t" + ft.dst + "\n");
        AppendAssoc(start, TransportLines(entry.files[..j]), TransportLine(ft));
        assert entry.files[..j + 1] == entry.files[..j] + [ft];
        TransportLinesSnoc(entry.files[..j], ft);
      }
      assert entry.files[..|entry.files|] == entry.files;
      w' := w' + "\n";
      FilesBlockParts(w, entry);
    }
  }

  /** `writeFilesIfExists`: appends one `%files` block per entry that has transports. */
  method WriteFilesIfExists(w: string, f: seq<Files>) returns (w': string)
    ensures w' == w + FilesText(f)
  {
    w' := w;
    for i := 0 to |f|
      invariant w' == w + FilesText(f[..i])
    {
      w' := WriteFilesBlock(w', f[i]);
      AppendAssoc(w, FilesText(f[..i]), FilesBlock(f[i]));
      FilesTextPrefix(f, i);
    }
    assert f[..|f|] == f;
  }

  /** `writeLabelsIfExists`: the `%labels` section, one line per label in map order. */
  method WriteLabelsIfExists(w: string, l: map<string, string>) returns (w': string, ghost order: seq<string>)
    ensures IsEnumeration(order, l.Keys)
    ensures w' == w + LabelsText(l, order)
    ensures w' == w <==> |l| == 0
  {
    w' := w;
    order := [];
    var remaining := l.Keys;
    if |l| > 0 {
      w' := w' + "%labels\n";
      ghost var start := w';
      while remaining != {}
        invariant remaining <= l.Keys
        invariant NoDuplicates(order)
        invariant forall k :: k in order <==> k in l && k !in remaining
        invariant w' == start + LabelLines(l, order)
        decreases remaining
      {
        var k :| k in remaining;
        w' := w' + ("\t" + k + " " + l[k] + "\n");
        AppendAssoc(start, LabelLines(l, order), LabelLine(k, l[k]));
        LabelLinesSnoc(l, order, k);
        NoDuplicatesAppend(order, k);
        order := order + [k];
        remaining := remaining - {k};
      }
      w' := w' + "\n";
      assert w' == w + LabelsText(l, order) by {
        AppendAssoc(w, "%labels\n", LabelLines(l, order));
        AppendAssoc(w, "%labels\n" + LabelLines(l, order), "\n");
      }
    }
  }

  /**
   * The header part of `populateRaw`: the `bootstrap` line first, then every
   * other header in map order, then a blank line.
   */
  method WriteHeader(w: string, h: map<string, string>) returns (w': string, ghost order: seq<string>)
    ensures IsEnumeration(order, h.Keys)
    ensures w' == w + HeaderText(h, order)
    ensures StartsWith(w', w) && NewlineTerminated(w')
  {
    w' := w;
    // bootstrap goes first
    if Bootstrap in h {
      w' := w' + (Bootstrap + ": " + h[Bootstrap] + "\n");
    }
    ghost var start := w';
    order := [];
    var remaining := h.Keys;
    while remaining != {}
      invariant remaining <= h.Keys
      invariant NoDuplicates(order)
      invariant forall k :: k in order <==> k in h && k !in remaining
      invariant w' == start + HeaderLines(h, NonBootstrap(order))
      decreases remaining
    {
      var k :| k in remaining;
      NonBootstrapSnoc(order, k);
      if k != Bootstrap {
        w' := w' + (k + ": " + h[k] + "\n");
        AppendAssoc(start, HeaderLines(h, NonBootstrap(order)), HeaderLine(k, h[k]));
        HeaderLinesSnoc(h, NonBootstrap(order), k);
      } else {
        assert NonBootstrap(order) + [] == NonBootstrap(order);
      }
      NoDuplicatesAppend(order, k);
      order := order + [k];
      remaining := remaining - {k};
    }
    w' := w' + "\n";
    var boot := if Bootstrap in h then HeaderLine(Bootstrap, h[Bootstrap]) else "";
    var lines := HeaderLines(h, NonBootstrap(order));
    assert start == w + boot;
    AppendAssoc(w, boot, lines);
    AppendAssoc(w, boot + lines, "\n");
    AppendedText(w, HeaderText(h, order));
  }

  /**
   * `populateRaw`: the definition file for `d`, appended to `w`. The header
   * map and the label map are each ranged over in some order; the returned
   * ghost orders are the ones taken.
   */
  method PopulateRaw(d: Definition, w: string)
    returns (w': string, ghost headerOrder: seq<string>, ghost labelOrder: seq<string>)
    ensures IsEnumeration(headerOrder, d.header.Keys)
    ensures IsEnumeration(labelOrder, d.imageData.labels.Keys)
    ensures w' == w + RawText(d, headerOrder, labelOrder)
    ensures StartsWith(w', w) && NewlineTerminated(w')
    ensures Bootstrap in d.header ==> StartsWith(w'[|w|..], "bootstrap: " + d.header[Bootstrap] + "\n")
  {
    w', headerOrder := WriteHeader(w, d.header);
    ghost var header := w';
    var img := d.imageData.imageScripts;
    var build := d.buildData.scripts;
    w', labelOrder := WriteLabelsIfExists(w', d.imageData.labels);
    ghost var body := LabelsText(d.imageData.labels, labelOrder);
    w' := WriteFilesIfExists(w', d.buildData.files);
    AppendAssoc(header, body, FilesText(d.buildData.files));
    body := body + FilesText(d.buildData.files);
    w' := WriteSectionIfExists(w', "help", img.help);
    AppendAssoc(header, body, ScriptSection("help", img.help));
    body := body + ScriptSection("help", img.help);
    w' := WriteSectionIfExists(w', "environment", img.environment);
    AppendAssoc(header, body, ScriptSection("environment", img.environment));
    body := body + ScriptSection("environment", img.environment);
    w' := WriteSectionIfExists(w', "runscript", img.runscript);
    AppendAssoc(header, body, ScriptSection("runscript", img.runscript));
    body := body + ScriptSection("runscript", img.runscript);
    w' := WriteSectionIfExists(w', "test", img.test);
    AppendAssoc(header, body, ScriptSection("test", img.test));
    body := body + ScriptSection("test", img.test);
    w' := WriteSectionIfExists(w', "startscript", img.startscript);
    AppendAssoc(header, body, ScriptSection("startscript", img.startscript));
    body := body + ScriptSection("startscript", img.startscript);
    w' := WriteSectionIfExists(w', "pre", build.pre);
    AppendAssoc(header, body, ScriptSection("pre", build.pre));
    body := body + ScriptSection("pre", build.pre);
    w' := WriteSectionIfExists(w', "setup", build.setup);
    AppendAssoc(header, body, ScriptSection("setup", build.setup));
    body := body + ScriptSection("setup", build.setup);
    w' := WriteSectionIfExists(w', "post", build.post);
    AppendAssoc(header, body, ScriptSection("post", build.post));
    body := body + ScriptSection("post", build.post);
    assert body == BodyText(d, labelOrder);
    AppendAssoc(w, HeaderText(d.header, headerOrder), body);
    RawTextNewlineTerminated(d, headerOrder, labelOrder);
    if Bootstrap in d.header {
      BootstrapLineFirst(d, headerOrder, labelOrder);
    }
    AppendedText(w, RawText(d, headerOrder, labelOrder));
  }

  /** The definition `NewDefinitionFromURI` builds from the two halves of a URI. */
  function UriDefinition(bootstrap: string, from: string): Definition {
    ZeroDefinition.(
      header := map[Bootstrap := bootstrap, "from" := from],
      raw := HeaderLine(Bootstrap, bootstrap) + HeaderLine("from", from) + "\n")
  }

  /**
   * The `raw` of a definition made from a URI is exactly what `populateRaw`
   * writes for it, in whichever order its two headers are visited.
   */
  lemma UriDefinitionRaw(bootstrap: string, from: string, headerOrder: seq<string>, labelOrder: seq<string>)
    requires IsEnumeration(headerOrder, {Bootstrap, "from"}) && IsEnumeration(labelOrder, {})
    ensures RawText(UriDefinition(bootstrap, from), headerOrder, labelOrder) == UriDefinition(bootstrap, from).raw
  {
    var d := UriDefinition(bootstrap, from);
    UriHeaderText(bootstrap, from, headerOrder);
    assert labelOrder == [] by {
      EnumerationLength(labelOrder, {});
    }
    assert BodyText(d, labelOrder) == "";
  }

  /**
   * `NewDefinitionFromURI`: splits `uri` at its first `://`, or failing
   * that at its first `:`, into the `bootstrap` and `from` headers.
   */
  method NewDefinitionFromURI(uri: string) returns (r: Result<Definition, string>)
    ensures r.Failure? <==> !Contains(uri, "://") && !Contains(uri, ":")
    ensures r.Failure? ==> r.error == UriError
    ensures r.Success? ==> r.value.header.Keys == {Bootstrap, "from"}
    ensures r.Success? ==> r.value == UriDefinition(r.value.header[Bootstrap], r.value.header["from"])
    ensures Contains(uri, "://") ==>
      r.Success? && SplitsAtFirst(uri, "://", r.value.header[Bootstrap], r.value.header["from"])
    ensures Contains(uri, "://") ==> r.Success? && !Contains(r.value.header[Bootstrap], "://")
    ensures !Contains(uri, "://") && Contains(uri, ":") ==>
      r.Success? && SplitsAtFirst(uri, ":", r.value.header[Bootstrap], r.value.header["from"])
  {
    var u: (string, string);
    if Contains(uri, "://") {
      u := SplitFirst(uri, "://").value;
    } else if Contains(uri, ":") {
      u := SplitFirst(uri, ":").value;
    } else {
      return Failure(UriError);
    }
    var d := ZeroDefinition.(header := map[Bootstrap := u.0, "from" := u.1]);
    var raw;
    ghost var headerOrder, labelOrder;
    raw, headerOrder, labelOrder := PopulateRaw(d, "");
    UriDefinitionRaw(u.0, u.1, headerOrder, labelOrder);
    if Contains(uri, "://") {
      FirstHalfFree(uri, "://", u.0, u.1);
    }
    d := d.(raw := raw);
    r := Success(d);
  }

  /**
   * The raw-fill rule of `NewDefinitionFromJSON`, applied to what the JSON
   * decoder produced: a decode error is passed on; a decoded definition keeps
   * a non-empty `raw` and otherwise gets the `populateRaw` text.
   */
  method NewDefinitionFromJSON(decoded: Result<Definition, string>)
    returns (r: Result<Definition, string>, ghost headerOrder: seq<string>, ghost labelOrder: seq<string>)
    ensures decoded.Failure? ==> r == decoded
    ensures decoded.Success? && |decoded.value.raw| > 0 ==> r == decoded
    ensures decoded.Success? && |decoded.value.raw| == 0 ==>
      && IsEnumeration(headerOrder, decoded.value.header.Keys)
      && IsEnumeration(labelOrder, decoded.value.imageData.labels.Keys)
      && r == Success(decoded.value.(raw := RawText(decoded.value, headerOrder, labelOrder)))
    ensures r.Success? ==> |r.value.raw| > 0
  {
    headerOrder, labelOrder := [], [];
    if decoded.Failure? {
      r := decoded;
      return;
    }
    var d := decoded.value;
    // if the JSON definition has no raw data section, add it
    if |d.raw| == 0 {
      var raw;
      raw, headerOrder, labelOrder := PopulateRaw(d, "");
      RawTextNewlineTerminated(d, headerOrder, labelOrder);
      assert raw == RawText(d, headerOrder, labelOrder);
      d := d.(raw := raw);
    }
    r := Success(d);
  }
}
