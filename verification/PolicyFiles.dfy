/**
  Installing a zip of policy overrides into a service's policy.d directory: all files or none, and
  never touching a blacklisted entry of that directory. What is blacklisted further down goes with its
  directory. Archives are flattened and file names are not preprocessed.
 */
module PolicyFiles {
  import opened Wrappers
  import opened Sequences

  datatype ZipEntry = ZipEntry(filename: string, content: string)

  /** A directory entry: a file with its text, or a directory with its own entries by name. */
  datatype Node = File(text: string) | Directory(items: map<string, Node>)

  /** The entries of the policy.d directory, by full path. */
  type Listing = map<string, Node>

  /** What is found by going down from a node, name by name. */
  function Below(node: Node, names: seq<string>): Option<Node>
    decreases |names|
  {
    if names == [] then Some(node)
    else if node.Directory? && names[0] in node.items then Below(node.items[names[0]], names[1..])
    else None
  }

  /** What is at a path: an entry of the directory and the names below it. */
  function NodeAt(files: Listing, entry: string, names: seq<string>): Option<Node> {
    if entry in files then Below(files[entry], names) else None
  }

  /** The text of such a path. */
  function PathText(entry: string, names: seq<string>): string {
    if names == [] then entry else PathText(entry, names[..|names| - 1]) + "/" + names[|names| - 1]
  }

  /** Going down the names one by one: what is below what is below. */
  lemma {:induction false} BelowFurther(node: Node, a: seq<string>, b: seq<string>)
    ensures Below(node, a + b) == if Below(node, a).Some? then Below(Below(node, a).value, b) else None
    decreases |a|
  {
    if a == [] {
      assert a + b == b;
    } else {
      assert (a + b)[1..] == a[1..] + b;
      if node.Directory? && a[0] in node.items {
        BelowFurther(node.items[a[0]], a[1..], b);
      }
    }
  }

  lemma {:induction false} PathFurther(entry: string, a: seq<string>, b: seq<string>)
    ensures PathText(entry, a + b) == PathText(PathText(entry, a), b)
    decreases |b|
  {
    if b == [] {
      assert a + b == a;
    } else {
      assert (a + b)[..|a + b| - 1] == a + b[..|b| - 1];
      PathFurther(entry, a, b[..|b| - 1]);
    }
  }

  /** One name further: an item of the directory, and the path with a slash and the name behind it. */
  lemma OneBelow(node: Node, entry: string, name: string)
    ensures Below(node, [name]) == if node.Directory? && name in node.items then Some(node.items[name]) else None
    ensures PathText(entry, [name]) == entry + "/" + name
  {
    assert [name][1..] == [] && [name][..0] == [];
  }

  /** What the caller passes in, and what code outside decides: whether a template function is there and
      what it makes of a document (it may raise), what validation accepts and dumps, and which
      writes fail. */
  datatype Options = Options(
    dir: string,
    blacklist: set<string>,
    template: Option<string -> Option<string>>,
    validate: string -> Option<string>,
    writeFails: string -> bool)

  // ---------------------------------------------------------------- which entries count

  /** The part after the last slash. */
  function BaseName(path: string): string {
    if path == [] || path[|path| - 1] == '/' then []
    else BaseName(path[..|path| - 1]) + [path[|path| - 1]]
  }

  predicate AllDots(s: string) {
    forall i :: 0 <= i < |s| ==> s[i] == '.'
  }

  /** Where `os.path.splitext` cuts: at the last dot, unless only dots stand before it. */
  function ExtIndex(name: string): (i: nat)
    ensures i <= |name| && (i < |name| ==> name[i] == '.' && i > 0)
  {
    DotIndex(name, |name|)
  }

  function DotIndex(name: string, n: nat): (i: nat)
    requires n <= |name|
    ensures i <= |name| && (i < |name| ==> name[i] == '.' && i > 0)
  {
    if n == 0 then |name|
    else if name[n - 1] == '.' then (if AllDots(name[..n - 1]) then |name| else n - 1)
    else DotIndex(name, n - 1)
  }

  function Stem(filename: string): string {
    BaseName(filename)[..ExtIndex(BaseName(filename))]
  }

  function Lower(s: string): (r: string)
    ensures |r| == |s|
  {
    seq(|s|, i requires 0 <= i < |s| => if 'A' <= s[i] <= 'Z' then 'a' + (s[i] - 'A') else s[i])
  }

  /** The codes of the capital letters, 65 to 90, go up by 32; nothing else changes. */
  lemma LowerIs(s: string, i: nat)
    requires i < |s|
    ensures Lower(s)[i] as int == s[i] as int + if 65 <= s[i] as int <= 90 then 32 else 0
  {
  }

  function Extension(filename: string): string {
    Lower(BaseName(filename)[ExtIndex(BaseName(filename))..])
  }

  const VALID_EXTS := {".yaml", ".yml", ".j2", ".tmpl", ".tpl"}
  const TEMPLATE_EXTS := {".j2", ".tmpl", ".tpl"}

  predicate IsDirEntry(e: ZipEntry) {
    e.filename != [] && e.filename[|e.filename| - 1] == '/'
  }

  predicate IsPolicyEntry(e: ZipEntry) {
    !IsDirEntry(e) && Extension(e.filename) in VALID_EXTS
  }

  predicate IsTemplate(e: ZipEntry) {
    Extension(e.filename) in TEMPLATE_EXTS
  }

  /** A last dot with something other than dots before it. */
  ghost predicate IsCut(name: string, i: nat) {
    i < |name| && name[i] == '.' && '.' !in name[i + 1..] && exists k :: 0 <= k < i && name[k] != '.'
  }

  lemma CutIs(name: string, i: nat)
    ensures i < |name| && ExtIndex(name) == i <==> IsCut(name, i)
    ensures ExtIndex(name) == |name| <==> !IsCut(name, ExtIndex(name))
  {
    DotIndexIs(name, |name|, i);
    DotIndexIs(name, |name|, ExtIndex(name));
  }

  lemma {:induction false} DotIndexIs(name: string, n: nat, i: nat)
    requires n <= |name| && '.' !in name[n..]
    ensures i < |name| && DotIndex(name, n) == i <==> IsCut(name, i)
  {
    if n > 0 {
      if name[n - 1] == '.' {
        assert IsCut(name, i) ==> i == n - 1 by {
          assert i < n - 1 ==> name[i + 1..][n - 2 - i] == '.';
          assert n <= i < |name| ==> name[n..][i - n] == name[i];
        }
        assert forall k :: 0 <= k < n - 1 ==> name[..n - 1][k] == name[k];
      } else {
        assert name[n - 1..] == [name[n - 1]] + name[n..];
        DotIndexIs(name, n - 1, i);
      }
    } else {
      assert name[0..] == name;
    }
  }

  lemma {:induction false} BaseNameIs(dir: string, base: string)
    requires dir == [] || dir[|dir| - 1] == '/'
    requires '/' !in base
    ensures BaseName(dir + base) == base
  {
    if base == [] {
      assert dir + base == dir;
    } else {
      var init := base[..|base| - 1];
      assert base == init + [base[|base| - 1]];
      assert (dir + base)[..|dir + base| - 1] == dir + init;
      BaseNameIs(dir, init);
    }
  }

  /** The name of a file is what stands before the last dot behind the last slash, if that is more than
      dots; a policy file is known by what stands behind it, in either letter case. */
  lemma NameWithExtension(dir: string, name: string, ext: string, content: string)
    requires dir == [] || dir[|dir| - 1] == '/'
    requires '/' !in name && '/' !in ext && '.' !in ext && exists k :: 0 <= k < |name| && name[k] != '.'
    ensures var e := ZipEntry(dir + (name + ("." + ext)), content);
            && Stem(e.filename) == name && Extension(e.filename) == Lower("." + ext)
            && (IsPolicyEntry(e) <==> Lower("." + ext) in [".yaml", ".yml", ".j2", ".tmpl", ".tpl"])
            && (IsTemplate(e) <==> Lower("." + ext) in [".j2", ".tmpl", ".tpl"])
  {
    var base := name + ("." + ext);
    BaseNameIs(dir, base);
    var i := |name|;
    assert base[i] == '.' && base[..i] == name && base[i..] == "." + ext && base[i + 1..] == ext;
    assert IsCut(base, i) by {
      var k :| 0 <= k < |name| && name[k] != '.';
      assert base[k] == name[k];
    }
    CutIs(base, i);
    if ext == [] {
      assert |Lower("." + ext)| == 1;
    } else {
      assert (dir + base)[|dir + base| - 1] == ext[|ext| - 1];
    }
  }

  /** Any other name is a name as a whole, and no policy file's: one without a dot, or with dots only before
      its last dot. */
  lemma NameWithoutExtension(dir: string, base: string, content: string)
    requires dir == [] || dir[|dir| - 1] == '/'
    requires '/' !in base && forall i: nat :: !IsCut(base, i)
    ensures Stem(dir + base) == base && !IsPolicyEntry(ZipEntry(dir + base, content))
  {
    BaseNameIs(dir, base);
    CutIs(base, 0);
    assert base[..|base|] == base && |Lower(base[|base|..])| == 0;
  }

  /** `_yamlfiles`: the entries that look like policy files, in archive order. */
  function PolicyEntries(zip: seq<ZipEntry>): (r: seq<ZipEntry>)
    ensures forall i :: 0 <= i < |r| ==> IsPolicyEntry(r[i])
  {
    if zip == [] then []
    else
      var rest := PolicyEntries(zip[..|zip| - 1]);
      if IsPolicyEntry(zip[|zip| - 1]) then rest + [zip[|zip| - 1]] else rest
  }

  /** No policy file is passed over or listed twice, and nothing else is listed; the order is the archive's. */
  lemma {:induction false} PolicyEntriesAreAll(front: seq<ZipEntry>, back: seq<ZipEntry>, e: ZipEntry)
    ensures multiset(PolicyEntries(back))[e] == if IsPolicyEntry(e) then multiset(back)[e] else 0
    ensures PolicyEntries(front + back) == PolicyEntries(front) + PolicyEntries(back)
    decreases |back|
  {
    if back == [] {
      assert front + back == front;
    } else {
      var init, last := back[..|back| - 1], back[|back| - 1];
      assert back == init + [last] && (front + back)[..|front + back| - 1] == front + init;
      PolicyEntriesAreAll(front, init, e);
      Regroup(PolicyEntries(front), PolicyEntries(init), if IsPolicyEntry(last) then [last] else []);
    }
  }

  /** The loop of `_yamlfiles`. */
  method YamlFiles(zip: seq<ZipEntry>) returns (files: seq<ZipEntry>)
    ensures files == PolicyEntries(zip)
  {
    files := [];
    for i := 0 to |zip|
      invariant files == PolicyEntries(zip[..i])
    {
      assert zip[..i + 1][..i] == zip[..i];
      if !IsDirEntry(zip[i]) && Extension(zip[i].filename) in VALID_EXTS {
        files := files + [zip[i]];
      }
    }
    assert zip[..|zip|] == zip;
  }

  predicate DistinctStems(es: seq<ZipEntry>) {
    forall i, j :: 0 <= i < j < |es| ==> Stem(es[i].filename) != Stem(es[j].filename)
  }

  /** `path_for_policy_file`. */
  function PathFor(o: Options, e: ZipEntry): string {
    o.dir + "/" + Stem(e.filename) + ".yaml"
  }

  lemma PathDeterminesStem(o: Options, a: ZipEntry, b: ZipEntry)
    requires PathFor(o, a) == PathFor(o, b)
    ensures Stem(a.filename) == Stem(b.filename)
  {
    var n := |o.dir + "/"|;
    assert PathFor(o, a)[n..|PathFor(o, a)| - 5] == Stem(a.filename);
    assert PathFor(o, b)[n..|PathFor(o, b)| - 5] == Stem(b.filename);
  }

  // ---------------------------------------------------------------- one entry

  /** The text handed to validation: templates go through the template function, if there is one. */
  function Rendered(o: Options, e: ZipEntry): Option<string> {
    if Extension(e.filename) in TEMPLATE_EXTS then
      if o.template.None? then None else o.template.value(e.content)
    else Some(e.content)
  }

  /** The text written for the entry, unless something refuses it. */
  function Written(o: Options, e: ZipEntry): Option<string> {
    if PathFor(o, e) in o.blacklist then None
    else
      var doc := Rendered(o, e);
      if doc.None? then None
      else
        var text := o.validate(doc.value);
        if text.None? || o.writeFails(PathFor(o, e)) then None else text
  }

  /** What has to go well for an entry to be written with this text: its path is not blacklisted, a template
      finds a template function and is rendered, validation takes the document, and the write does not fail. */
  ghost predicate Accepts(o: Options, e: ZipEntry, text: string) {
    var path := o.dir + "/" + Stem(e.filename) + ".yaml";
    && path !in o.blacklist && !o.writeFails(path)
    && exists doc :: o.validate(doc) == Some(text)
                     && if IsTemplate(e) then o.template.Some? && o.template.value(e.content) == Some(doc)
                        else doc == e.content
  }

  lemma WrittenIs(o: Options, e: ZipEntry, text: string)
    ensures Written(o, e) == Some(text) <==> Accepts(o, e, text)
  {
    if Written(o, e) == Some(text) {
      assert o.validate(Rendered(o, e).value) == Some(text);
    }
  }

  predicate AllAccepted(o: Options, es: seq<ZipEntry>) {
    forall i :: 0 <= i < |es| ==> Written(o, es[i]).Some?
  }

  /** The archive passes the first look: it opens, holds a policy file, and no two share a name. */
  predicate OpensWell(zip: Option<seq<ZipEntry>>) {
    zip.Some? && PolicyEntries(zip.value) != [] && DistinctStems(PolicyEntries(zip.value))
  }

  function Stems(es: seq<ZipEntry>): (r: seq<string>)
    ensures |r| == |es| && forall i :: 0 <= i < |es| ==> r[i] == Stem(es[i].filename)
  {
    seq(|es|, i requires 0 <= i < |es| => Stem(es[i].filename))
  }

  /** How often each name occurs. */
  method CountNames(names: seq<string>) returns (counts: map<string, nat>)
    ensures forall n :: n in counts <==> n in names
    ensures forall n :: n in counts ==> counts[n] == multiset(names)[n]
  {
    counts := map[];
    for i := 0 to |names|
      invariant forall n :: n in counts <==> n in multiset(names[..i])
      invariant forall n :: n in counts ==> counts[n] == multiset(names[..i])[n]
    {
      assert names[..i + 1] == names[..i] + [names[i]];
      counts := counts[names[i] := (if names[i] in counts then counts[names[i]] else 0) + 1];
    }
    assert names[..|names|] == names;
  }

  /** `open_and_filter_yaml_files`: names are counted, then the counts are looked at. */
  method OpenAndFilter(zip: Option<seq<ZipEntry>>) returns (entries: Option<seq<ZipEntry>>)
    ensures entries == if OpensWell(zip) then Some(PolicyEntries(zip.value)) else None
  {
    if zip.None? {
      return None;
    }
    var es := YamlFiles(zip.value);
    var counts := CountNames(Stems(es));
    CountedOnce(Stems(es));
    assert DistinctStems(es) <==> NoDuplicates(Stems(es));
    assert es != [] ==> Stems(es)[0] in counts;
    if counts == map[] || exists n :: n in counts && counts[n] > 1 {
      return None;
    }
    return Some(es);
  }

  function Kept(files: Listing, keep: set<string>): Listing {
    map p | p in files && p in keep :: files[p]
  }

  function Installed(o: Options, es: seq<ZipEntry>): Listing
    requires AllAccepted(o, es)
  {
    if es == [] then map[]
    else
      assert AllAccepted(o, es[..|es| - 1]);
      var last := es[|es| - 1];
      Installed(o, es[..|es| - 1])[PathFor(o, last) := File(Written(o, last).value)]
  }

  /** The installed paths are the entries' paths, and none is blacklisted. */
  lemma {:induction false} InstalledFrom(o: Options, es: seq<ZipEntry>, p: string)
    requires AllAccepted(o, es) && p in Installed(o, es)
    ensures p !in o.blacklist
    ensures exists i :: 0 <= i < |es| && p == PathFor(o, es[i])
  {
    var init, last := es[..|es| - 1], es[|es| - 1];
    if p == PathFor(o, last) {
      assert Written(o, es[|es| - 1]).Some?;
    } else {
      assert p in Installed(o, init);
      InstalledFrom(o, init, p);
      var i :| 0 <= i < |init| && p == PathFor(o, init[i]);
      assert es[i] == init[i];
    }
  }

  lemma NewPath(o: Options, init: seq<ZipEntry>, last: ZipEntry)
    requires AllAccepted(o, init) && DistinctStems(init + [last])
    ensures PathFor(o, last) !in Installed(o, init)
  {
    var es := init + [last];
    assert forall i :: 0 <= i < |init| ==> init[i] == es[i] && Stem(es[i].filename) != Stem(es[|init|].filename);
    if PathFor(o, last) in Installed(o, init) {
      InstalledFrom(o, init, PathFor(o, last));
      var i :| 0 <= i < |init| && PathFor(o, last) == PathFor(o, init[i]);
      PathDeterminesStem(o, last, init[i]);
      assert false;
    }
  }

  /** One file for every entry, with the text that was accepted for it. */
  lemma {:induction false} InstalledIsExact(o: Options, es: seq<ZipEntry>)
    requires AllAccepted(o, es) && DistinctStems(es)
    ensures |Installed(o, es)| == |es|
    ensures forall i :: 0 <= i < |es| ==> (PathFor(o, es[i]) in Installed(o, es)
                                          && Installed(o, es)[PathFor(o, es[i])] == File(Written(o, es[i]).value))
  {
    if es != [] {
      var init, last := es[..|es| - 1], es[|es| - 1];
      assert es == init + [last];
      InstalledIsExact(o, init);
      NewPath(o, init, last);
      forall i | 0 <= i < |init| ensures PathFor(o, es[i]) in Installed(o, es)
                                         && Installed(o, es)[PathFor(o, es[i])] == File(Written(o, es[i]).value)
      {
        assert es[i] == init[i];
      }
    }
  }

  // ---------------------------------------------------------------- in terms of the archive

  /** The archive is good: it opens, has a policy file, no two policy files share a name, and each is accepted. */
  ghost predicate IsGood(zip: Option<seq<ZipEntry>>, o: Options) {
    && zip.Some?
    && (exists i :: 0 <= i < |zip.value| && IsPolicyEntry(zip.value[i]))
    && DistinctPolicies(zip.value)
    && (forall i :: 0 <= i < |zip.value| && IsPolicyEntry(zip.value[i]) ==>
          exists text :: Accepts(o, zip.value[i], text))
  }

  ghost predicate DistinctPolicies(zip: seq<ZipEntry>) {
    forall i, j :: 0 <= i < j < |zip| && IsPolicyEntry(zip[i]) && IsPolicyEntry(zip[j]) ==>
      Stem(zip[i].filename) != Stem(zip[j].filename)
  }

  ghost predicate AreEntriesPaths(paths: set<string>, zip: seq<ZipEntry>, o: Options) {
    forall p :: p in paths ==>
      exists e :: e in zip && IsPolicyEntry(e) && p == o.dir + "/" + Stem(e.filename) + ".yaml"
  }

  ghost predicate HoldsTexts(files: Listing, zip: seq<ZipEntry>, o: Options) {
    forall e, text :: e in zip && IsPolicyEntry(e) && Accepts(o, e, text) ==>
      HasText(files, o.dir + "/" + Stem(e.filename) + ".yaml", text)
  }

  predicate HasText(files: Listing, path: string, text: string) {
    path in files && files[path] == File(text)
  }

  /** What was blacklisted is there as it was; besides that there is one file for every policy file of the archive,
      under the directory, its name and `.yaml`, with the text accepted for it, and nothing else. */
  ghost predicate IsInstalled(files: Listing, before: Listing, zip: seq<ZipEntry>, o: Options) {
    && AreEntriesPaths(files.Keys - o.blacklist, zip, o)
    && HoldsTexts(files, zip, o)
    && (forall p :: p in o.blacklist ==> (p in files <==> p in before) && (p in before ==> files[p] == before[p]))
  }

  lemma {:induction false} ListedAt(zip: seq<ZipEntry>, e: ZipEntry)
    ensures e in PolicyEntries(zip) <==> e in zip && IsPolicyEntry(e)
  {
    if zip != [] {
      ListedAt(zip[..|zip| - 1], e);
      assert zip == zip[..|zip| - 1] + [zip[|zip| - 1]];
    }
  }

  lemma {:induction false} DistinctInArchive(zip: seq<ZipEntry>)
    ensures DistinctStems(PolicyEntries(zip)) <==> DistinctPolicies(zip)
  {
    if zip != [] {
      var init, last := zip[..|zip| - 1], zip[|zip| - 1];
      var es := PolicyEntries(init);
      DistinctInArchive(init);
      assert zip == init + [last];
      DistinctPoliciesStep(init, last);
      if IsPolicyEntry(last) {
        DistinctStemsStep(es, last);
        forall e ensures e in es <==> e in init && IsPolicyEntry(e) {
          ListedAt(init, e);
        }
      }
    }
  }

  lemma DistinctStemsStep(es: seq<ZipEntry>, last: ZipEntry)
    ensures DistinctStems(es + [last]) <==>
            DistinctStems(es) && forall e :: e in es ==> Stem(e.filename) != Stem(last.filename)
  {
    var all := es + [last];
    assert all[|es|] == last && forall i :: 0 <= i < |es| ==> all[i] == es[i];
  }

  lemma DistinctPoliciesStep(init: seq<ZipEntry>, last: ZipEntry)
    ensures DistinctPolicies(init + [last]) <==>
            DistinctPolicies(init) &&
            (IsPolicyEntry(last) ==>
               forall e :: e in init && IsPolicyEntry(e) ==> Stem(e.filename) != Stem(last.filename))
  {
    var zip := init + [last];
    assert zip[|init|] == last && forall i :: 0 <= i < |init| ==> zip[i] == init[i];
  }

  lemma GoodIff(zip: Option<seq<ZipEntry>>, o: Options)
    ensures IsGood(zip, o) <==> OpensWell(zip) && AllAccepted(o, PolicyEntries(zip.value))
  {
    if zip.Some? {
      var es := PolicyEntries(zip.value);
      DistinctInArchive(zip.value);
      forall e ensures e in es <==> e in zip.value && IsPolicyEntry(e) {
        ListedAt(zip.value, e);
      }
      forall e, text ensures Written(o, e) == Some(text) <==> Accepts(o, e, text) {
        WrittenIs(o, e, text);
      }
      assert es != [] ==> es[0] in es;
      if AllAccepted(o, es) {
        forall i | 0 <= i < |zip.value| && IsPolicyEntry(zip.value[i])
          ensures exists text :: Accepts(o, zip.value[i], text)
        {
          assert zip.value[i] in es;
          assert Accepts(o, zip.value[i], Written(o, zip.value[i]).value);
        }
      }
    }
  }

  lemma InstalledPath(o: Options, zip: seq<ZipEntry>, p: string)
    requires AllAccepted(o, PolicyEntries(zip)) && p in Installed(o, PolicyEntries(zip))
    ensures p !in o.blacklist
    ensures exists e :: e in zip && IsPolicyEntry(e) && p == o.dir + "/" + Stem(e.filename) + ".yaml"
  {
    var es := PolicyEntries(zip);
    InstalledFrom(o, es, p);
    var i :| 0 <= i < |es| && p == PathFor(o, es[i]);
    ListedAt(zip, es[i]);
  }

  lemma InstalledText(o: Options, zip: seq<ZipEntry>, e: ZipEntry, text: string)
    requires AllAccepted(o, PolicyEntries(zip)) && DistinctStems(PolicyEntries(zip))
    requires e in zip && IsPolicyEntry(e) && Accepts(o, e, text)
    ensures PathFor(o, e) in Installed(o, PolicyEntries(zip))
    ensures Installed(o, PolicyEntries(zip))[PathFor(o, e)] == File(text)
  {
    var es := PolicyEntries(zip);
    ListedAt(zip, e);
    WrittenIs(o, e, text);
    InstalledIsExact(o, es);
    var i :| 0 <= i < |es| && es[i] == e;
  }

  lemma InstalledMeans(o: Options, zip: seq<ZipEntry>, before: Listing)
    requires AllAccepted(o, PolicyEntries(zip)) && DistinctStems(PolicyEntries(zip))
    ensures IsInstalled(Kept(before, o.blacklist) + Installed(o, PolicyEntries(zip)), before, zip, o)
  {
    var now := Installed(o, PolicyEntries(zip));
    forall p | p in now
      ensures p !in o.blacklist
      ensures exists e :: e in zip && IsPolicyEntry(e) && p == o.dir + "/" + Stem(e.filename) + ".yaml"
    {
      InstalledPath(o, zip, p);
    }
    forall e, text | e in zip && IsPolicyEntry(e) && Accepts(o, e, text)
      ensures HasText(now, PathFor(o, e), text)
    {
      InstalledText(o, zip, e, text);
    }
    WithKept(o, zip, before, now);
  }

  lemma WithKept(o: Options, zip: seq<ZipEntry>, before: Listing, now: Listing)
    requires AreEntriesPaths(now.Keys, zip, o) && now.Keys !! o.blacklist && HoldsTexts(now, zip, o)
    ensures IsInstalled(Kept(before, o.blacklist) + now, before, zip, o)
  {
    var files := Kept(before, o.blacklist) + now;
    assert files.Keys - o.blacklist == now.Keys;
    forall e, text | e in zip && IsPolicyEntry(e) && Accepts(o, e, text)
      ensures HasText(files, o.dir + "/" + Stem(e.filename) + ".yaml", text)
    {
      assert HasText(now, o.dir + "/" + Stem(e.filename) + ".yaml", text);
    }
  }

  // ---------------------------------------------------------------- what becomes of blacklisted paths

  /** A blacklisted path keeps what is there if its entry of the directory is blacklisted itself, and is
      gone otherwise. */
  ghost predicate BlacklistedStay(before: Listing, after: Listing, blacklist: set<string>) {
    forall entry: string, names: seq<string> :: PathText(entry, names) in blacklist ==>
      NodeAt(after, entry, names) == if entry in blacklist then NodeAt(before, entry, names) else None
  }

  lemma CleaningKeeps(files: Listing, keep: set<string>)
    ensures BlacklistedStay(files, Kept(files, keep), keep)
  {
  }

  lemma InstallingKeeps(o: Options, es: seq<ZipEntry>, files: Listing)
    requires AllAccepted(o, es)
    ensures BlacklistedStay(files, Kept(files, o.blacklist) + Installed(o, es), o.blacklist)
  {
    var after := Kept(files, o.blacklist) + Installed(o, es);
    forall entry, names | PathText(entry, names) in o.blacklist
      ensures NodeAt(after, entry, names) == if entry in o.blacklist then NodeAt(files, entry, names) else None
    {
      if entry in Installed(o, es) {
        InstalledFrom(o, es, entry);
        InstalledIsFile(o, es, entry);
      }
    }
  }

  lemma {:induction false} InstalledIsFile(o: Options, es: seq<ZipEntry>, p: string)
    requires AllAccepted(o, es) && p in Installed(o, es)
    ensures Installed(o, es)[p].File?
  {
    if p != PathFor(o, es[|es| - 1]) {
      InstalledIsFile(o, es[..|es| - 1], p);
    }
  }

  /** A blacklisted path that is there survives, be the outcome what it may, exactly when its entry of the
      directory is blacklisted too. */
  lemma SurvivesIff(before: Listing, after: Listing, blacklist: set<string>, entry: string, names: seq<string>)
    requires BlacklistedStay(before, after, blacklist)
    requires PathText(entry, names) in blacklist && NodeAt(before, entry, names).Some?
    ensures NodeAt(after, entry, names) == NodeAt(before, entry, names) <==> entry in blacklist
  {
  }

  // ---------------------------------------------------------------- the directory

  class PolicyDirectory {
    var files: Listing
    var marker: bool       // the success file

    constructor (files: Listing, marker: bool)
      ensures this.files == files && this.marker == marker
    {
      this.files, this.marker := files, marker;
    }

    /** `clean_policyd_dir_for`: removes every entry of the directory whose path is not to be kept, and
        with a directory all that is in it. */
    method Clean(keep: set<string>)
      modifies this`files
      ensures files == Kept(old(files), keep)
      ensures BlacklistedStay(old(files), files, keep)
    {
      CleaningKeeps(files, keep);
      var paths := files.Keys;
      while paths != {}
        invariant paths <= old(files).Keys
        invariant files == map p | p in old(files) && (p in paths || p in keep) :: old(files)[p]
        decreases paths
      {
        var p :| p in paths;
        if p !in keep {
          files := files - {p};
        }
        paths := paths - {p};
      }
    }

    /** The body of the loop over the entries; False stands for any exception. */
    method InstallEntry(o: Options, e: ZipEntry) returns (ok: bool)
      modifies this`files
      ensures ok <==> Written(o, e).Some?
      ensures files == if ok then old(files)[PathFor(o, e) := File(Written(o, e).value)] else old(files)
      ensures ok <==> exists text :: Accepts(o, e, text)
      ensures forall text :: Accepts(o, e, text) ==>
                files == old(files)[o.dir + "/" + Stem(e.filename) + ".yaml" := File(text)]
    {
      forall text ensures Written(o, e) == Some(text) <==> Accepts(o, e, text) {
        WrittenIs(o, e, text);
      }
      var path := PathFor(o, e);
      if path in o.blacklist {
        return false;
      }
      var doc := e.content;
      if Extension(e.filename) in TEMPLATE_EXTS {
        if o.template.None? {
          return false;
        }
        var rendered := o.template.value(doc);
        if rendered.None? {
          return false;
        }
        doc := rendered.value;
      }
      var text := o.validate(doc);
      if text.None? || o.writeFails(path) {
        return false;
      }
      files := files[path := File(text.value)];
      return true;
    }

    /** `process_policy_resource_file`. Either every policy file of the archive is installed and nothing
        else but what was to be kept, or only what was to be kept remains.

        The success file then tells which of the two exactly when the archive got as far as being
        unpacked or there was no success file before: an archive refused at first look empties the
        directory and leaves an old success file standing. */
    method Process(zip: Option<seq<ZipEntry>>, o: Options) returns (completed: bool)
      modifies this
      ensures completed <==> IsGood(zip, o)
      ensures completed ==> IsInstalled(files, old(files), zip.value, o)
      ensures !completed ==> forall p :: (p in files <==> p in old(files) && p in o.blacklist)
                                         && (p in files ==> files[p] == old(files)[p])
      ensures completed <==> OpensWell(zip) && AllAccepted(o, PolicyEntries(zip.value))
      ensures completed ==> files == Kept(old(files), o.blacklist) + Installed(o, PolicyEntries(zip.value))
      ensures !completed ==> files == Kept(old(files), o.blacklist)
      ensures Kept(files, o.blacklist) == Kept(old(files), o.blacklist)
      ensures BlacklistedStay(old(files), files, o.blacklist)
      ensures marker == (completed || (!OpensWell(zip) && old(marker)))
      ensures (marker <==> completed) <==> OpensWell(zip) || !old(marker)
    {
      completed := false;
      ghost var before := files;
      GoodIff(zip, o);
      var entries := OpenAndFilter(zip);
      if entries.Some? {
        marker := false;
        Clean(o.blacklist);
        completed := InstallAll(o, entries.value);
      }
      if completed {
        marker := true;
        InstalledIsExact(o, PolicyEntries(zip.value));
        InstalledMeans(o, zip.value, before);
        InstallingKeeps(o, PolicyEntries(zip.value), before);
      } else {
        Clean(o.blacklist);
        CleaningKeeps(before, o.blacklist);
      }
    }

    /** The loop over the entries; it stops at the first exception, with some files written. */
    method InstallAll(o: Options, es: seq<ZipEntry>) returns (ok: bool)
      requires DistinctStems(es)
      modifies this`files
      ensures ok <==> AllAccepted(o, es)
      ensures ok ==> files == old(files) + Installed(o, es)
      ensures Kept(files, o.blacklist) == Kept(old(files), o.blacklist)
    {
      for i := 0 to |es|
        invariant AllAccepted(o, es[..i])
        invariant files == old(files) + Installed(o, es[..i])
      {
        KeepsBlacklisted(o, es[..i], old(files));
        ok := InstallEntry(o, es[i]);
        if !ok {
          return;
        }
        OneMoreInstalled(o, es, i, old(files));
      }
      assert es[..|es|] == es;
      KeepsBlacklisted(o, es, old(files));
      ok := true;
    }
  }

  /** It does happen: a blacklisted file in a directory that is not blacklisted is removed. */
  method NestedPathIsRemoved(d: PolicyDirectory, o: Options) returns (completed: bool)
    requires o.blacklist == {"policy.d/sub/keep.yaml"}
    requires d.files == map["policy.d/sub" := Directory(map["keep.yaml" := File("mine")])]
    modifies d
    ensures PathText("policy.d/sub", ["keep.yaml"]) in o.blacklist
    ensures old(NodeAt(d.files, "policy.d/sub", ["keep.yaml"])) == Some(File("mine"))
    ensures NodeAt(d.files, "policy.d/sub", ["keep.yaml"]) == None
  {
    assert ["keep.yaml"][..0] == [] && ["keep.yaml"][1..] == [];
    assert PathText("policy.d/sub", ["keep.yaml"]) == "policy.d/sub" + "/" + "keep.yaml" == "policy.d/sub/keep.yaml";
    assert NodeAt(d.files, "policy.d/sub", ["keep.yaml"]) == Some(File("mine"));
    completed := d.Process(None, o);
  }

  /** It does happen: after an archive that does not open, an old success file stands over a directory
      from which everything was removed. */
  method StaleMarker(o: Options) returns (d: PolicyDirectory, completed: bool)
    requires o.blacklist == {}
    ensures fresh(d) && !completed && d.marker && d.files == map[]
  {
    d := new PolicyDirectory(map["a.yaml" := File("old")], true);
    completed := d.Process(None, o);
  }

  lemma KeepsBlacklisted(o: Options, es: seq<ZipEntry>, files: Listing)
    requires AllAccepted(o, es)
    ensures Kept(files + Installed(o, es), o.blacklist) == Kept(files, o.blacklist)
  {
  }

  lemma OneMoreInstalled(o: Options, es: seq<ZipEntry>, i: nat, files: Listing)
    requires i < |es| && AllAccepted(o, es[..i]) && Written(o, es[i]).Some?
    ensures AllAccepted(o, es[..i + 1])
    ensures (files + Installed(o, es[..i]))[PathFor(o, es[i]) := File(Written(o, es[i]).value)]
            == files + Installed(o, es[..i + 1])
  {
    var next := es[..i + 1];
    assert next == es[..i] + [es[i]];
    AcceptedSnoc(o, es[..i], es[i]);
    Extend(files, Installed(o, es[..i]), PathFor(o, es[i]), File(Written(o, es[i]).value));
  }

  lemma AcceptedSnoc(o: Options, init: seq<ZipEntry>, last: ZipEntry)
    requires AllAccepted(o, init) && Written(o, last).Some?
    ensures AllAccepted(o, init + [last])
    ensures Installed(o, init + [last]) == Installed(o, init)[PathFor(o, last) := File(Written(o, last).value)]
  {
    var es := init + [last];
    forall i | 0 <= i < |es| ensures Written(o, es[i]).Some? {
      if i < |init| {
        assert es[i] == init[i];
      }
    }
    assert es[..|es| - 1] == init;
  }

  lemma Extend(files: Listing, more: Listing, p: string, n: Node)
    ensures (files + more)[p := n] == files + more[p := n]
  {
  }
}
