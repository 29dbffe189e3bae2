/**
 * The definition-file text that `populateRaw` writes for a `Definition`,
 * stated as pure functions. Go ranges over the `Header` and `Labels` maps in
 * an unspecified order, so the functions take that order as a parameter:
 * a sequence enumerating the map's keys. Every fact proved here that is meant
 * to hold of the real output holds for EVERY such enumeration.
 */
module Serialization {
  import opened BuildTypes

  const Bootstrap: string := "bootstrap"

  /** Every key listed in `keys` is a key of `m`. */
  predicate KeysIn(keys: seq<string>, m: map<string, string>) {
    forall k :: k in keys ==> k in m
  }

  predicate NoDuplicates(s: seq<string>) {
    forall i, j :: 0 <= i < j < |s| ==> s[i] != s[j]
  }

  /** `order` lists every element of `keys` exactly once: one possible map iteration order. */
  ghost predicate IsEnumeration(order: seq<string>, keys: set<string>) {
    NoDuplicates(order) && forall k :: k in order <==> k in keys
  }

  predicate StartsWith(s: string, prefix: string) {
    |prefix| <= |s| && s[..|prefix|] == prefix
  }

  predicate EndsWith(s: string, suffix: string) {
    |suffix| <= |s| && s[|s| - |suffix|..] == suffix
  }

  /** The text ends with a newline. */
  predicate NewlineTerminated(s: string) {
    |s| > 0 && s[|s| - 1] == '\n'
  }

  // ---------------------------------------------------------------- header

  function HeaderLine(k: string, v: string): string {
    k + ": " + v + "\n"
  }

  /** The keys of `order` that the header loop writes: all but `bootstrap`, in order. */
  function NonBootstrap(order: seq<string>): (r: seq<string>)
    ensures forall k :: k in r <==> k in order && k != Bootstrap
  {
    if order == [] then []
    else
      var last := order[|order| - 1];
      assert order == order[..|order| - 1] + [last];
      NonBootstrap(order[..|order| - 1]) + (if last == Bootstrap then [] else [last])
  }

  /** One `k: v` line per key of `keys`, in that order. */
  function HeaderLines(h: map<string, string>, keys: seq<string>): string
    requires KeysIn(keys, h)
  {
    if keys == [] then ""
    else
      var last := keys[|keys| - 1];
      HeaderLines(h, keys[..|keys| - 1]) + HeaderLine(last, h[last])
  }

  /** The header block: the `bootstrap` line if any, the other keys, then a blank line. */
  function HeaderText(h: map<string, string>, order: seq<string>): string
    requires KeysIn(order, h)
  {
    (if Bootstrap in h then HeaderLine(Bootstrap, h[Bootstrap]) else "")
    + HeaderLines(h, NonBootstrap(order))
    + "\n"
  }

  // ---------------------------------------------------------------- labels

  function LabelLine(k: string, v: string): string {
    "\t" + k + " " + v + "\n"
  }

  function LabelLines(l: map<string, string>, keys: seq<string>): string
    requires KeysIn(keys, l)
  {
    if keys == [] then ""
    else
      var last := keys[|keys| - 1];
      LabelLines(l, keys[..|keys| - 1]) + LabelLine(last, l[last])
  }

  /** The `%labels` section, absent when there are no labels. */
  function LabelsText(l: map<string, string>, order: seq<string>): (r: string)
    requires KeysIn(order, l)
    ensures r == "" <==> |l| == 0
    ensures r != "" ==> StartsWith(r, "%labels\n") && EndsWith(r, "\n\n")
    ensures r == "" || NewlineTerminated(r)
  {
    if |l| > 0 then "%labels\n" + LabelLines(l, order) + "\n" else ""
  }

  // ---------------------------------------------------------------- files

  function TransportLine(ft: FileTransport): string {
    "\t" + ft.src + "\t" + ft.dst + "\n"
  }

  /** One tab-separated line per transport, in list order. */
  function TransportLines(ts: seq<FileTransport>): string {
    if ts == [] then ""
    else TransportLines(ts[..|ts| - 1]) + TransportLine(ts[|ts| - 1])
  }

  /** The `%files[ args]` line that opens a `%files` block. */
  function FilesHeader(f: Files): string {
    "%files" + (if |f.args| > 0 then " " + f.args else "") + "\n"
  }

  /** One `%files` block; a `Files` entry with no transports writes nothing at all. */
  function FilesBlock(f: Files): (r: string)
    ensures r == "" <==> |f.files| == 0
    ensures r != "" ==> StartsWith(r, "%files") && EndsWith(r, "\n\n")
  {
    if |f.files| > 0 then FilesHeader(f) + TransportLines(f.files) + "\n" else ""
  }

  /** All `%files` blocks, in list order. */
  function FilesText(fs: seq<Files>): (r: string)
    ensures r == "" || NewlineTerminated(r)
  {
    if fs == [] then ""
    else FilesText(fs[..|fs| - 1]) + FilesBlock(fs[|fs| - 1])
  }

  // ---------------------------------------------------------------- scripts

  /** A script section `%ident[ args]\n<script>\n\n`, or nothing for an empty script. */
  function ScriptSection(ident: string, s: Script): (r: string)
    ensures r == "" <==> |s.script| == 0
    ensures r != "" && |s.args| == 0 ==> StartsWith(r, "%" + ident + "\n")
    ensures r != "" && |s.args| > 0 ==> StartsWith(r, "%" + ident + " " + s.args + "\n")
    ensures r != "" ==> EndsWith(r, "\n" + s.script + "\n\n")
    ensures r == "" || NewlineTerminated(r)
  {
    if |s.script| > 0 then
      "%" + ident + (if |s.args| > 0 then " " + s.args else "") + "\n" + s.script + "\n\n"
    else ""
  }

  // ---------------------------------------------------------------- whole file

  /**
   * Everything after the header block: labels, files, then the script
   * sections help, environment, runscript, test, startscript, pre, setup, post.
   */
  function BodyText(d: Definition, labelOrder: seq<string>): string
    requires KeysIn(labelOrder, d.imageData.labels)
  {
    var img := d.imageData.imageScripts;
    var build := d.buildData.scripts;
    LabelsText(d.imageData.labels, labelOrder)
    + FilesText(d.buildData.files)
    + ScriptSection("help", img.help)
    + ScriptSection("environment", img.environment)
    + ScriptSection("runscript", img.runscript)
    + ScriptSection("test", img.test)
    + ScriptSection("startscript", img.startscript)
    + ScriptSection("pre", build.pre)
    + ScriptSection("setup", build.setup)
    + ScriptSection("post", build.post)
  }

  /**
   * The definition file for `d`, given the order in which the header and
   * label maps are enumerated: the header block, then the body.
   */
  function RawText(d: Definition, headerOrder: seq<string>, labelOrder: seq<string>): string
    requires KeysIn(headerOrder, d.header) && KeysIn(labelOrder, d.imageData.labels)
  {
    HeaderText(d.header, headerOrder) + BodyText(d, labelOrder)
  }

  // ---------------------------------------------------------------- properties

  lemma AppendAssoc(a: string, b: string, c: string)
    ensures (a + b) + c == a + (b + c)
  {
  }

  lemma LabelLinesSnoc(l: map<string, string>, keys: seq<string>, k: string)
    requires KeysIn(keys, l) && k in l
    ensures LabelLines(l, keys + [k]) == LabelLines(l, keys) + LabelLine(k, l[k])
  {
    assert (keys + [k])[..|keys|] == keys;
  }

  lemma HeaderLinesSnoc(h: map<string, string>, keys: seq<string>, k: string)
    requires KeysIn(keys, h) && k in h
    ensures HeaderLines(h, keys + [k]) == HeaderLines(h, keys) + HeaderLine(k, h[k])
  {
    assert (keys + [k])[..|keys|] == keys;
  }

  lemma NonBootstrapSnoc(order: seq<string>, k: string)
    ensures NonBootstrap(order + [k]) == NonBootstrap(order) + (if k == Bootstrap then [] else [k])
  {
    assert (order + [k])[..|order|] == order;
  }

  /** The block for a non-empty `Files` entry, written piece by piece after `w`. */
  lemma FilesBlockParts(w: string, f: Files)
    requires |f.files| > 0
    ensures (if |f.args| > 0 then w + "%files" + (" " + f.args) else w + "%files") + "\n"
            + TransportLines(f.files) + "\n"
            == w + FilesBlock(f)
  {
  }

  lemma TransportLinesSnoc(ts: seq<FileTransport>, ft: FileTransport)
    ensures TransportLines(ts + [ft]) == TransportLines(ts) + TransportLine(ft)
  {
    assert (ts + [ft])[..|ts|] == ts;
  }

  lemma NoDuplicatesAppend(s: seq<string>, x: string)
    requires NoDuplicates(s) && x !in s
    ensures NoDuplicates(s + [x])
  {
    forall i, j | 0 <= i < j < |s| + 1
      ensures (s + [x])[i] != (s + [x])[j]
    {
      if j == |s| { assert (s + [x])[i] == s[i]; }
    }
  }

  /** An enumeration of a set of keys has exactly one element per key. */
  lemma {:induction false} EnumerationLength(order: seq<string>, keys: set<string>)
    requires IsEnumeration(order, keys)
    ensures |order| == |keys|
  {
    if order == [] {
      assert keys == {};
    } else {
      var init, last := order[..|order| - 1], order[|order| - 1];
      assert forall i :: 0 <= i < |init| ==> init[i] == order[i];
      assert order == init + [last];
      assert IsEnumeration(init, keys - {last});
      EnumerationLength(init, keys - {last});
    }
  }

  /** Filtering out `bootstrap` keeps the keys distinct. */
  lemma {:induction false} NonBootstrapNoDuplicates(order: seq<string>)
    requires NoDuplicates(order)
    ensures NoDuplicates(NonBootstrap(order))
  {
    if order != [] {
      var init, last := order[..|order| - 1], order[|order| - 1];
      assert NoDuplicates(init);
      NonBootstrapNoDuplicates(init);
      if last != Bootstrap {
        assert last !in init by {
          assert forall i :: 0 <= i < |init| ==> init[i] == order[i];
        }
        NoDuplicatesAppend(NonBootstrap(init), last);
      }
    }
  }

  /**
   * Whatever order the header map is enumerated in, the header loop writes a
   * line for every key other than `bootstrap` exactly once, and never one
   * for `bootstrap`.
   */
  lemma HeaderKeysEmittedOnce(h: map<string, string>, order: seq<string>)
    requires IsEnumeration(order, h.Keys)
    ensures IsEnumeration(NonBootstrap(order), h.Keys - {Bootstrap})
    ensures Bootstrap !in NonBootstrap(order)
    ensures |NonBootstrap(order)| == |h.Keys - {Bootstrap}|
  {
    NonBootstrapNoDuplicates(order);
    EnumerationLength(NonBootstrap(order), h.Keys - {Bootstrap});
  }

  lemma StartsWithAppend(a: string, b: string, prefix: string)
    requires StartsWith(a, prefix)
    ensures StartsWith(a + b, prefix)
  {
    assert (a + b)[..|prefix|] == a[..|prefix|];
  }

  /** Appending newline-terminated text `t` to `w` keeps `w` as a prefix, leaves `t` after it, and ends with a newline. */
  lemma AppendedText(w: string, t: string)
    requires NewlineTerminated(t)
    ensures StartsWith(w + t, w) && (w + t)[|w|..] == t && NewlineTerminated(w + t)
  {
    assert (w + t)[..|w|] == w;
    assert (w + t)[|w + t| - 1] == t[|t| - 1];
  }

  /** When a `bootstrap` header exists, the file begins with its line. */
  lemma BootstrapLineFirst(d: Definition, headerOrder: seq<string>, labelOrder: seq<string>)
    requires KeysIn(headerOrder, d.header) && KeysIn(labelOrder, d.imageData.labels)
    requires Bootstrap in d.header
    ensures StartsWith(RawText(d, headerOrder, labelOrder), "bootstrap: " + d.header[Bootstrap] + "\n")
  {
    var line := HeaderLine(Bootstrap, d.header[Bootstrap]);
    assert line == "bootstrap: " + d.header[Bootstrap] + "\n";
    var lines := HeaderLines(d.header, NonBootstrap(headerOrder));
    assert StartsWith(line, line);
    StartsWithAppend(line, lines, line);
    StartsWithAppend(line + lines, "\n", line);
    StartsWithAppend(HeaderText(d.header, headerOrder), BodyText(d, labelOrder), line);
  }

  lemma HeaderLinesTerminated(h: map<string, string>, keys: seq<string>)
    requires KeysIn(keys, h)
    ensures HeaderLines(h, keys) == "" || NewlineTerminated(HeaderLines(h, keys))
  {
  }

  /**
   * The header block always ends with a blank line: it is a lone newline, or
   * its last line is followed by an empty one.
   */
  lemma HeaderEndsWithBlankLine(h: map<string, string>, order: seq<string>)
    requires KeysIn(order, h)
    ensures HeaderText(h, order) == "\n" || EndsWith(HeaderText(h, order), "\n\n")
  {
    var boot := if Bootstrap in h then HeaderLine(Bootstrap, h[Bootstrap]) else "";
    var lines := HeaderLines(h, NonBootstrap(order));
    HeaderLinesTerminated(h, NonBootstrap(order));
    var t := HeaderText(h, order);
    assert t == boot + lines + "\n";
    if boot + lines != "" {
      assert NewlineTerminated(boot + lines) by {
        if lines == "" { assert boot + lines == boot; }
        else { assert (boot + lines)[|boot + lines| - 1] == lines[|lines| - 1]; }
      }
      assert t[|t| - 2..] == "\n\n";
    }
  }

  /** The entries of `fs` that list at least one transport, in order. */
  function NonEmptyFiles(fs: seq<Files>): (r: seq<Files>)
    ensures forall f :: f in r ==> |f.files| > 0
  {
    if fs == [] then []
    else
      var last := fs[|fs| - 1];
      NonEmptyFiles(fs[..|fs| - 1]) + (if |last.files| > 0 then [last] else [])
  }

  /** A `Files` entry without transports contributes nothing: dropping every such entry leaves the text unchanged. */
  lemma {:induction false} FilesSkipsEmpty(fs: seq<Files>)
    ensures FilesText(fs) == FilesText(NonEmptyFiles(fs))
  {
    if fs != [] {
      var init, last := fs[..|fs| - 1], fs[|fs| - 1];
      FilesSkipsEmpty(init);
      if |last.files| > 0 {
        FilesTextSnoc(NonEmptyFiles(init), last);
      } else {
        assert NonEmptyFiles(fs) == NonEmptyFiles(init);
        assert FilesText(fs) == FilesText(init) + "";
      }
    }
  }

  lemma FilesTextPrefix(fs: seq<Files>, i: nat)
    requires i < |fs|
    ensures FilesText(fs[..i + 1]) == FilesText(fs[..i]) + FilesBlock(fs[i])
  {
    assert fs[..i + 1][..i] == fs[..i];
  }

  lemma FilesTextSnoc(fs: seq<Files>, f: Files)
    ensures FilesText(fs + [f]) == FilesText(fs) + FilesBlock(f)
  {
    assert (fs + [f])[..|fs|] == fs;
  }

  /** No `%files` text at all exactly when no entry lists a transport. */
  lemma {:induction false} FilesTextEmptyIff(fs: seq<Files>)
    ensures FilesText(fs) == "" <==> forall i :: 0 <= i < |fs| ==> |fs[i].files| == 0
  {
    if fs != [] {
      var init, last := fs[..|fs| - 1], fs[|fs| - 1];
      FilesTextEmptyIff(init);
      assert FilesText(fs) == FilesText(init) + FilesBlock(last);
      assert |FilesText(fs)| == |FilesText(init)| + |FilesBlock(last)|;
      assert forall i :: 0 <= i < |init| ==> init[i] == fs[i];
    }
  }

  /**
   * The text depends on the header, the labels, the `%files` entries and the
   * eight rendered scripts only: in particular never on the build-time `test`
   * script, the metadata, the custom data, the app order or `raw` itself.
   */
  lemma RenderedFieldsDetermineRaw(d1: Definition, d2: Definition, headerOrder: seq<string>, labelOrder: seq<string>)
    requires KeysIn(headerOrder, d1.header) && KeysIn(labelOrder, d1.imageData.labels)
    requires d1.header == d2.header && d1.imageData.labels == d2.imageData.labels
    requires d1.imageData.imageScripts == d2.imageData.imageScripts
    requires d1.buildData.files == d2.buildData.files
    requires d1.buildData.scripts.pre == d2.buildData.scripts.pre
    requires d1.buildData.scripts.setup == d2.buildData.scripts.setup
    requires d1.buildData.scripts.post == d2.buildData.scripts.post
    ensures RawText(d1, headerOrder, labelOrder) == RawText(d2, headerOrder, labelOrder)
  {
  }

  /** Every definition file, even that of an empty definition, is non-empty and ends with a newline. */
  lemma RawTextNewlineTerminated(d: Definition, headerOrder: seq<string>, labelOrder: seq<string>)
    requires KeysIn(headerOrder, d.header) && KeysIn(labelOrder, d.imageData.labels)
    ensures NewlineTerminated(RawText(d, headerOrder, labelOrder))
  {
    BodyTextTerminated(d, labelOrder);
    var h := HeaderText(d.header, headerOrder);
    assert NewlineTerminated(h);
    var _ := JoinSections(h, BodyText(d, labelOrder));
  }

  lemma BodyTextTerminated(d: Definition, labelOrder: seq<string>)
    requires KeysIn(labelOrder, d.imageData.labels)
    ensures BodyText(d, labelOrder) == "" || NewlineTerminated(BodyText(d, labelOrder))
  {
    var img := d.imageData.imageScripts;
    var build := d.buildData.scripts;
    var t := LabelsText(d.imageData.labels, labelOrder);
    t := JoinSections(t, FilesText(d.buildData.files));
    t := JoinSections(t, ScriptSection("help", img.help));
    t := JoinSections(t, ScriptSection("environment", img.environment));
    t := JoinSections(t, ScriptSection("runscript", img.runscript));
    t := JoinSections(t, ScriptSection("test", img.test));
    t := JoinSections(t, ScriptSection("startscript", img.startscript));
    t := JoinSections(t, ScriptSection("pre", build.pre));
    t := JoinSections(t, ScriptSection("setup", build.setup));
    t := JoinSections(t, ScriptSection("post", build.post));
  }

  /** Joins two pieces of text each of which is empty or newline-terminated. */
  function JoinSections(a: string, b: string): (r: string)
    requires a == "" || NewlineTerminated(a)
    requires b == "" || NewlineTerminated(b)
    ensures r == a + b && (r == "" || NewlineTerminated(r))
  {
    if b == "" then assert a + b == a; a + b
    else assert (a + b)[|a + b| - 1] == b[|b| - 1]; a + b
  }

  /**
   * The header block of a definition made from a URI: whichever of the two
   * orders the map is enumerated in, it is the `bootstrap` line, the `from`
   * line and a blank line.
   */
  lemma UriHeaderText(bootstrap: string, from: string, order: seq<string>)
    requires IsEnumeration(order, {Bootstrap, "from"})
    ensures HeaderText(map[Bootstrap := bootstrap, "from" := from], order)
            == HeaderLine(Bootstrap, bootstrap) + HeaderLine("from", from) + "\n"
  {
    var h := map[Bootstrap := bootstrap, "from" := from];
    HeaderKeysEmittedOnce(h, order);
    var rest := NonBootstrap(order);
    assert h.Keys - {Bootstrap} == {"from"};
    assert rest == ["from"] by {
      assert "from" in rest;
      EnumerationLength(rest, {"from"});
      assert rest[0] in rest;
    }
    assert HeaderLines(h, rest) == HeaderLine("from", from) by {
      assert rest[..0] == [];
    }
  }
}
