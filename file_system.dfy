/** The filesystem backend: a read-only lookup over a directory tree in which
    each connection is a directory holding a `config.yaml` descriptor.

    The disk and the YAML library are inputs: a `Loader` says what opening
    and parsing the descriptor at a path gives, and a `Walk` is what a
    recursive walk of the root directory produced. */
module FileSystem {
  import opened Model

  /** The fixed file name of a connection's descriptor. */
  const CONFIG_YAML: string := "config.yaml"

  /** What opening and parsing one descriptor gives. */
  datatype Load =
    | IOError                          // the file could not be opened, or failed to close
    | ParseError                       // the YAML library failed to read or parse the content
    | NullDocument                     // the file held no document (an empty file)
    | Loaded(config: ConnectionConfig) // the record the file describes

  /** The disk together with the YAML library, keyed by path components. */
  type Loader = seq<string> -> Load

  /** One path produced by the walk: its absolute path, whether it is a
      directory, its last name component, and its depth below the root
      (the root itself has depth 0). */
  datatype Entry = Entry(absolutePath: string, isDirectory: bool, name: string, depth: nat)

  /** What walking the root produced. `RootUnreadable` is the checked I/O
      error raised when the walk is opened; `Walked(entries, false)` is a walk
      that yielded `entries` and then hit an I/O error while reading further,
      which surfaces as an unchecked exception from the stream. */
  datatype Walk =
    | RootUnreadable
    | Walked(entries: seq<Entry>, completed: bool)

  /** The path of the descriptor for `configName`: root, name, file name. */
  function ConfigPath(rootDirectory: string, configName: string): seq<string>
  {
    [rootDirectory, configName, CONFIG_YAML]
  }

  /** Under one root, distinct connection names have distinct descriptors. */
  lemma ConfigPathsDistinct(rootDirectory: string, a: string, b: string)
    ensures ConfigPath(rootDirectory, a) == ConfigPath(rootDirectory, b) <==> a == b
  {
    if ConfigPath(rootDirectory, a) == ConfigPath(rootDirectory, b) {
      assert ConfigPath(rootDirectory, a)[1] == ConfigPath(rootDirectory, b)[1];
    }
  }

  /** Looks up one connection. Failing to open or close the descriptor gives
      an empty result; a read or parse failure inside the YAML library, or an
      empty descriptor, is not caught and escapes; a loaded
      record is returned with its name forced to `configName`. */
  function GetConnectionConfig(rootDirectory: string, configName: string, load: Loader)
    : (r: Outcome<Option<ConnectionConfig>>)
    ensures load(ConfigPath(rootDirectory, configName)).IOError? <==> r == Normal(None)
    ensures load(ConfigPath(rootDirectory, configName)).Loaded? <==> r.Normal? && r.value.Some?
    ensures load(ConfigPath(rootDirectory, configName)).ParseError? <==> r == Raised(YamlFailure)
    ensures load(ConfigPath(rootDirectory, configName)).NullDocument? <==> r == Raised(NullPointer)
    ensures r.Normal? && r.value.Some? ==>
      && r.value.value.name == configName
      && SameApartFromName(r.value.value, load(ConfigPath(rootDirectory, configName)).config)
  {
    match load(ConfigPath(rootDirectory, configName))
    case IOError => Normal(None)
    case ParseError => Raised(YamlFailure)
    case NullDocument => Raised(NullPointer)
    case Loaded(c) => Normal(Some(WithName(c, configName)))
  }

  /** The two filters of the stream: a directory other than the root. */
  predicate IsConnectionDirectory(rootDirectory: string, e: Entry)
  {
    e.isDirectory && e.absolutePath != rootDirectory
  }

  /** Reference definition of the filter and name-mapping stages: the names
      of the kept entries, in walk order. */
  function DirectoryNames(rootDirectory: string, entries: seq<Entry>): seq<string>
  {
    if entries == [] then []
    else
      (if IsConnectionDirectory(rootDirectory, entries[0]) then [entries[0].name] else [])
      + DirectoryNames(rootDirectory, entries[1..])
  }

  /** Reference definition of the lookup and present-only stages, for names
      none of whose lookups raise: the records found, in name order. */
  function Present(rootDirectory: string, names: seq<string>, load: Loader): seq<ConnectionConfig>
  {
    if names == [] then []
    else
      (match GetConnectionConfig(rootDirectory, names[0], load)
       case Normal(Some(c)) => [c]
       case _ => [])
      + Present(rootDirectory, names[1..], load)
  }

  /** No lookup of `names` lets an exception escape. */
  predicate NoneRaise(rootDirectory: string, names: seq<string>, load: Loader)
  {
    forall i :: 0 <= i < |names| ==> GetConnectionConfig(rootDirectory, names[i], load).Normal?
  }

  /** The stream pipeline as it runs: entries are pulled one at a time, so
      the first exception met (a lookup that raises, or the walk failing after
      its last yielded entry) ends the whole call. */
  function Collect(rootDirectory: string, entries: seq<Entry>, completed: bool, load: Loader)
    : Outcome<seq<ConnectionConfig>>
  {
    if entries == [] then
      if completed then Normal([]) else Raised(UncheckedIO)
    else if !IsConnectionDirectory(rootDirectory, entries[0]) then
      Collect(rootDirectory, entries[1..], completed, load)
    else
      match GetConnectionConfig(rootDirectory, entries[0].name, load)
      case Raised(f) => Raised(f)
      case Normal(None) => Collect(rootDirectory, entries[1..], completed, load)
      case Normal(Some(c)) =>
        match Collect(rootDirectory, entries[1..], completed, load)
        case Raised(f) => Raised(f)
        case Normal(cs) => Normal([c] + cs)
  }

  /** Lists every connection found by walking the root. A root that cannot
      be walked gives the empty list. */
  function GetConnectionConfigs(rootDirectory: string, walk: Walk, load: Loader)
    : (r: Outcome<seq<ConnectionConfig>>)
    ensures walk.RootUnreadable? ==> r == Normal([])
  {
    match walk
    case RootUnreadable => Normal([])
    case Walked(entries, completed) => Collect(rootDirectory, entries, completed, load)
  }

  /** The fused pipeline agrees with the stage-by-stage reference: it returns
      exactly when the walk completed and no kept lookup raises, and then it
      returns the records found, in walk order. A lookup that raises escapes
      as its own exception; otherwise a failed walk escapes as UncheckedIO. */
  lemma {:induction false} CollectMatchesStages(rootDirectory: string, entries: seq<Entry>, completed: bool, load: Loader)
    ensures var r := Collect(rootDirectory, entries, completed, load);
      var names := DirectoryNames(rootDirectory, entries);
      && (r.Normal? <==> completed && NoneRaise(rootDirectory, names, load))
      && (r.Normal? ==> r.value == Present(rootDirectory, names, load))
      && (!NoneRaise(rootDirectory, names, load) ==> r.Raised? && r.failure != UncheckedIO)
      && (NoneRaise(rootDirectory, names, load) && !completed ==> r == Raised(UncheckedIO))
  {
    if entries != [] {
      var e := entries[0];
      var tail := entries[1..];
      CollectMatchesStages(rootDirectory, tail, completed, load);
      var names := DirectoryNames(rootDirectory, entries);
      var tailNames := DirectoryNames(rootDirectory, tail);
      if IsConnectionDirectory(rootDirectory, e) {
        assert names == [e.name] + tailNames;
        assert names[1..] == tailNames;
        assert NoneRaise(rootDirectory, names, load) <==>
          GetConnectionConfig(rootDirectory, e.name, load).Normal? && NoneRaise(rootDirectory, tailNames, load)
        by {
          if GetConnectionConfig(rootDirectory, e.name, load).Normal? && NoneRaise(rootDirectory, tailNames, load) {
            forall i | 0 <= i < |names| ensures GetConnectionConfig(rootDirectory, names[i], load).Normal? {
              if i > 0 { assert names[i] == tailNames[i - 1]; }
            }
          }
          if NoneRaise(rootDirectory, names, load) {
            assert names[0] == e.name;
            forall i | 0 <= i < |tailNames| ensures GetConnectionConfig(rootDirectory, tailNames[i], load).Normal? {
              assert tailNames[i] == names[i + 1];
            }
          }
        }
      } else {
        assert names == tailNames;
      }
    }
  }

  /** Every record of `Present` is the successful lookup of one of the names. */
  lemma {:induction false} PresentFromNames(rootDirectory: string, names: seq<string>, load: Loader, c: ConnectionConfig)
    requires c in Present(rootDirectory, names, load)
    ensures exists n :: n in names && GetConnectionConfig(rootDirectory, n, load) == Normal(Some(c))
  {
    var head := match GetConnectionConfig(rootDirectory, names[0], load)
      case Normal(Some(d)) => [d]
      case _ => [];
    assert Present(rootDirectory, names, load) == head + Present(rootDirectory, names[1..], load);
    if c in head {
      assert names[0] in names;
    } else {
      PresentFromNames(rootDirectory, names[1..], load, c);
      var n :| n in names[1..] && GetConnectionConfig(rootDirectory, n, load) == Normal(Some(c));
      assert n in names;
    }
  }

  /** Conversely, every successful lookup of one of the names is kept. */
  lemma {:induction false} PresentComplete(rootDirectory: string, names: seq<string>, load: Loader, i: nat, c: ConnectionConfig)
    requires i < |names| && GetConnectionConfig(rootDirectory, names[i], load) == Normal(Some(c))
    ensures c in Present(rootDirectory, names, load)
  {
    if i > 0 {
      PresentComplete(rootDirectory, names[1..], load, i - 1, c);
    }
  }

  /** When every name loads, `Present` keeps them all, in order, each under
      its own name and otherwise as loaded. */
  lemma {:induction false} PresentAllLoaded(rootDirectory: string, names: seq<string>, load: Loader)
    requires forall i :: 0 <= i < |names| ==> load(ConfigPath(rootDirectory, names[i])).Loaded?
    ensures var cs := Present(rootDirectory, names, load);
      && |cs| == |names|
      && forall i :: 0 <= i < |names| ==>
           cs[i].name == names[i]
           && SameApartFromName(cs[i], load(ConfigPath(rootDirectory, names[i])).config)
  {
    if names != [] {
      assert load(ConfigPath(rootDirectory, names[0])).Loaded?;
      var tail := names[1..];
      forall i | 0 <= i < |tail| ensures load(ConfigPath(rootDirectory, tail[i])).Loaded? {
        assert tail[i] == names[i + 1];
      }
      PresentAllLoaded(rootDirectory, tail, load);
    }
  }

  /** A name is kept exactly when some directory entry other than the root
      carries it. */
  lemma {:induction false} DirectoryNamesFromEntries(rootDirectory: string, entries: seq<Entry>, n: string)
    ensures n in DirectoryNames(rootDirectory, entries) <==>
      exists e :: e in entries && IsConnectionDirectory(rootDirectory, e) && e.name == n
  {
    if entries != [] {
      DirectoryNamesFromEntries(rootDirectory, entries[1..], n);
      assert entries == [entries[0]] + entries[1..];
      if exists e :: e in entries && IsConnectionDirectory(rootDirectory, e) && e.name == n {
        var e :| e in entries && IsConnectionDirectory(rootDirectory, e) && e.name == n;
        if e != entries[0] { assert e in entries[1..]; }
      }
    }
  }

  /** Every listed record is the lookup of a walked directory other than the
      root, so it carries that directory's name and the rest of its fields as
      loaded from that directory's descriptor. */
  lemma ListedRecordsComeFromDirectories(rootDirectory: string, walk: Walk, load: Loader, c: ConnectionConfig)
    requires GetConnectionConfigs(rootDirectory, walk, load).Normal?
    requires c in GetConnectionConfigs(rootDirectory, walk, load).value
    ensures walk.Walked?
    ensures exists e ::
      && e in walk.entries && IsConnectionDirectory(rootDirectory, e)
      && GetConnectionConfig(rootDirectory, e.name, load) == Normal(Some(c))
      && c.name == e.name
  {
    CollectMatchesStages(rootDirectory, walk.entries, walk.completed, load);
    PresentFromNames(rootDirectory, DirectoryNames(rootDirectory, walk.entries), load, c);
    var n :| n in DirectoryNames(rootDirectory, walk.entries)
      && GetConnectionConfig(rootDirectory, n, load) == Normal(Some(c));
    DirectoryNamesFromEntries(rootDirectory, walk.entries, n);
  }

  /** Conversely, every walked directory other than the root whose lookup
      finds a record contributes that record to a listing that returns. */
  lemma ListsEveryFoundDirectory(rootDirectory: string, walk: Walk, load: Loader, e: Entry, c: ConnectionConfig)
    requires GetConnectionConfigs(rootDirectory, walk, load).Normal?
    requires walk.Walked? && e in walk.entries && IsConnectionDirectory(rootDirectory, e)
    requires GetConnectionConfig(rootDirectory, e.name, load) == Normal(Some(c))
    ensures c in GetConnectionConfigs(rootDirectory, walk, load).value
  {
    var names := DirectoryNames(rootDirectory, walk.entries);
    CollectMatchesStages(rootDirectory, walk.entries, walk.completed, load);
    DirectoryNamesFromEntries(rootDirectory, walk.entries, e.name);
    var i :| 0 <= i < |names| && names[i] == e.name;
    PresentComplete(rootDirectory, names, load, i, c);
  }

  /** No lookup of a name list raises exactly when the first does not and
      no lookup of the rest does. */
  lemma NoneRaiseCons(rootDirectory: string, n: string, rest: seq<string>, load: Loader)
    ensures NoneRaise(rootDirectory, [n] + rest, load) <==>
      GetConnectionConfig(rootDirectory, n, load).Normal? && NoneRaise(rootDirectory, rest, load)
  {
    var names := [n] + rest;
    if NoneRaise(rootDirectory, names, load) {
      assert names[0] == n;
      forall k | 0 <= k < |rest| ensures GetConnectionConfig(rootDirectory, rest[k], load).Normal? {
        assert rest[k] == names[k + 1];
      }
    }
  }

  /** When some kept lookup raises, the exception that escapes is that of the
      first such lookup in walk order: every earlier kept lookup returned. */
  lemma {:induction false} CollectRaisesFirstFailure(rootDirectory: string, entries: seq<Entry>, completed: bool, load: Loader)
    requires !NoneRaise(rootDirectory, DirectoryNames(rootDirectory, entries), load)
    ensures var r := Collect(rootDirectory, entries, completed, load);
      var names := DirectoryNames(rootDirectory, entries);
      exists i :: 0 <= i < |names|
        && NoneRaise(rootDirectory, names[..i], load)
        && GetConnectionConfig(rootDirectory, names[i], load).Raised?
        && r == Raised(GetConnectionConfig(rootDirectory, names[i], load).failure)
  {
    var e := entries[0];
    var tail := entries[1..];
    var names := DirectoryNames(rootDirectory, entries);
    var tailNames := DirectoryNames(rootDirectory, tail);
    if !IsConnectionDirectory(rootDirectory, e) {
      assert names == tailNames;
      assert Collect(rootDirectory, entries, completed, load) == Collect(rootDirectory, tail, completed, load);
      CollectRaisesFirstFailure(rootDirectory, tail, completed, load);
    } else {
      assert names == [e.name] + tailNames;
      var head := GetConnectionConfig(rootDirectory, e.name, load);
      if head.Raised? {
        assert Collect(rootDirectory, entries, completed, load) == Raised(head.failure);
        assert names[0] == e.name && names[..0] == [];
        assert NoneRaise(rootDirectory, names[..0], load);
      } else {
        NoneRaiseCons(rootDirectory, e.name, tailNames, load);
        CollectRaisesFirstFailure(rootDirectory, tail, completed, load);
        var j :| 0 <= j < |tailNames|
          && NoneRaise(rootDirectory, tailNames[..j], load)
          && GetConnectionConfig(rootDirectory, tailNames[j], load).Raised?
          && Collect(rootDirectory, tail, completed, load) == Raised(GetConnectionConfig(rootDirectory, tailNames[j], load).failure);
        assert Collect(rootDirectory, entries, completed, load) == Collect(rootDirectory, tail, completed, load);
        assert names[j + 1] == tailNames[j];
        assert names[..j + 1] == [e.name] + tailNames[..j];
        NoneRaiseCons(rootDirectory, e.name, tailNames[..j], load);
        assert NoneRaise(rootDirectory, names[..j + 1], load);
      }
    }
  }

  /** A completed walk whose every kept directory loads lists one record per
      kept directory, in walk order, each named after its directory. */
  lemma ListAllLoaded(rootDirectory: string, entries: seq<Entry>, load: Loader)
    requires forall e :: e in entries && IsConnectionDirectory(rootDirectory, e) ==>
      load(ConfigPath(rootDirectory, e.name)).Loaded?
    ensures var r := GetConnectionConfigs(rootDirectory, Walked(entries, true), load);
      var names := DirectoryNames(rootDirectory, entries);
      && r.Normal?
      && |r.value| == |names|
      && forall i :: 0 <= i < |names| ==> r.value[i].name == names[i]
  {
    var names := DirectoryNames(rootDirectory, entries);
    forall i | 0 <= i < |names| ensures load(ConfigPath(rootDirectory, names[i])).Loaded? {
      assert names[i] in names;
      DirectoryNamesFromEntries(rootDirectory, entries, names[i]);
    }
    CollectMatchesStages(rootDirectory, entries, true, load);
    PresentAllLoaded(rootDirectory, names, load);
  }

  /** A completed walk that yields no directory besides the root lists
      nothing. */
  lemma {:induction false} ListWithoutSubdirectories(rootDirectory: string, entries: seq<Entry>, load: Loader)
    requires forall e :: e in entries ==> !IsConnectionDirectory(rootDirectory, e)
    ensures GetConnectionConfigs(rootDirectory, Walked(entries, true), load) == Normal([])
  {
    if entries != [] {
      assert entries[0] in entries;
      assert forall e :: e in entries[1..] ==> e in entries;
      ListWithoutSubdirectories(rootDirectory, entries[1..], load);
    }
  }

  /** Only I/O errors are mapped to empty results: when a kept directory's
      descriptor fails to parse or is empty, listing raises rather than
      skipping it. */
  lemma ListRaisesOnBadDescriptor(rootDirectory: string, entries: seq<Entry>, completed: bool, load: Loader, e: Entry)
    requires e in entries && IsConnectionDirectory(rootDirectory, e)
    requires load(ConfigPath(rootDirectory, e.name)).ParseError? || load(ConfigPath(rootDirectory, e.name)).NullDocument?
    ensures GetConnectionConfigs(rootDirectory, Walked(entries, completed), load).Raised?
    ensures GetConnectionConfigs(rootDirectory, Walked(entries, completed), load).failure != UncheckedIO
  {
    var names := DirectoryNames(rootDirectory, entries);
    DirectoryNamesFromEntries(rootDirectory, entries, e.name);
    var i :| 0 <= i < |names| && names[i] == e.name;
    assert !GetConnectionConfig(rootDirectory, names[i], load).Normal?;
    CollectMatchesStages(rootDirectory, entries, completed, load);
  }

  // The walk is recursive, so a directory nested at any depth is kept and
  // looked up by its last name component directly under the root. The
  // listing below keeps only the root's immediate subdirectories, one per
  // connection.

  /** Directories in the same parent have distinct names: the entries at
      depth 1 of a walk never share a name. */
  predicate DistinctSiblings(entries: seq<Entry>)
  {
    forall i, j :: 0 <= i < j < |entries| && entries[i].depth == 1 && entries[j].depth == 1 ==>
      entries[i].name != entries[j].name
  }

  /** The entries directly under the root, in walk order. */
  function ImmediateEntries(entries: seq<Entry>): (r: seq<Entry>)
    ensures forall e :: e in r <==> e in entries && e.depth == 1
  {
    if entries == [] then []
    else (if entries[0].depth == 1 then [entries[0]] else []) + ImmediateEntries(entries[1..])
  }

  /** Lists one record per immediate subdirectory of the root, with the same
      error handling as GetConnectionConfigs. It reads the completion flag of
      the recursive walk, so an I/O error inside a nested directory still
      makes it raise, although a walk limited to depth 1 would never open
      that directory. */
  function GetImmediateConnectionConfigs(rootDirectory: string, walk: Walk, load: Loader)
    : (r: Outcome<seq<ConnectionConfig>>)
    ensures walk.RootUnreadable? ==> r == Normal([])
  {
    match walk
    case RootUnreadable => Normal([])
    case Walked(entries, completed) => Collect(rootDirectory, ImmediateEntries(entries), completed, load)
  }

  /** No two records in `cs` share a name. */
  predicate DistinctRecordNames(cs: seq<ConnectionConfig>)
  {
    forall i, j :: 0 <= i < j < |cs| ==> cs[i].name != cs[j].name
  }

  /** The immediate entries of a walk carry pairwise distinct names. */
  lemma {:induction false} ImmediateNamesDistinct(entries: seq<Entry>)
    requires DistinctSiblings(entries)
    ensures forall i, j :: 0 <= i < j < |ImmediateEntries(entries)| ==>
      ImmediateEntries(entries)[i].name != ImmediateEntries(entries)[j].name
  {
    if entries != [] {
      var tail := entries[1..];
      assert DistinctSiblings(tail) by {
        forall i, j | 0 <= i < j < |tail| && tail[i].depth == 1 && tail[j].depth == 1
          ensures tail[i].name != tail[j].name
        {
          assert tail[i] == entries[i + 1] && tail[j] == entries[j + 1];
        }
      }
      ImmediateNamesDistinct(tail);
      var rest := ImmediateEntries(tail);
      if entries[0].depth == 1 {
        forall k | 0 <= k < |rest| ensures rest[k].name != entries[0].name {
          assert rest[k] in rest;
          var m :| 0 <= m < |tail| && tail[m] == rest[k];
          assert entries[m + 1] == rest[k];
        }
      }
    }
  }

  /** No name occurs twice in `names`. */
  predicate DistinctStrings(names: seq<string>)
  {
    forall i, j :: 0 <= i < j < |names| ==> names[i] != names[j]
  }

  /** Entries with pairwise distinct names give pairwise distinct kept names. */
  lemma {:induction false} DirectoryNamesDistinct(rootDirectory: string, entries: seq<Entry>)
    requires forall i, j :: 0 <= i < j < |entries| ==> entries[i].name != entries[j].name
    ensures DistinctStrings(DirectoryNames(rootDirectory, entries))
  {
    if entries != [] {
      var tail := entries[1..];
      assert forall i, j :: 0 <= i < j < |tail| ==> tail[i].name != tail[j].name by {
        forall i, j | 0 <= i < j < |tail| ensures tail[i].name != tail[j].name {
          assert tail[i] == entries[i + 1] && tail[j] == entries[j + 1];
        }
      }
      DirectoryNamesDistinct(rootDirectory, tail);
      var rest := DirectoryNames(rootDirectory, tail);
      var names := DirectoryNames(rootDirectory, entries);
      if IsConnectionDirectory(rootDirectory, entries[0]) {
        assert names == [entries[0].name] + rest;
        forall k | 0 <= k < |rest| ensures rest[k] != entries[0].name {
          DirectoryNamesFromEntries(rootDirectory, tail, rest[k]);
          var e :| e in tail && IsConnectionDirectory(rootDirectory, e) && e.name == rest[k];
          var m :| 0 <= m < |tail| && tail[m] == e;
          assert entries[m + 1] == e;
        }
        forall i, j | 0 <= i < j < |names| ensures names[i] != names[j] {
          if i == 0 {
            assert names[j] == rest[j - 1];
          } else {
            assert names[i] == rest[i - 1] && names[j] == rest[j - 1];
          }
        }
      } else {
        assert names == rest;
      }
    }
  }

  /** Distinct names give records with distinct names. */
  lemma {:induction false} PresentDistinct(rootDirectory: string, names: seq<string>, load: Loader)
    requires DistinctStrings(names)
    ensures DistinctRecordNames(Present(rootDirectory, names, load))
  {
    if names != [] {
      var tail := names[1..];
      PresentDistinct(rootDirectory, tail, load);
      var rest := Present(rootDirectory, tail, load);
      forall k | 0 <= k < |rest| ensures rest[k].name != names[0] {
        assert rest[k] in rest;
        PresentFromNames(rootDirectory, tail, load, rest[k]);
        var n :| n in tail && GetConnectionConfig(rootDirectory, n, load) == Normal(Some(rest[k]));
        var m :| 0 <= m < |tail| && tail[m] == n;
        assert names[m + 1] == n;
      }
    }
  }

  /** Listing immediate subdirectories returns at most one record per
      connection name. */
  lemma ImmediateListingHasDistinctNames(rootDirectory: string, walk: Walk, load: Loader)
    requires walk.Walked? ==> DistinctSiblings(walk.entries)
    requires GetImmediateConnectionConfigs(rootDirectory, walk, load).Normal?
    ensures DistinctRecordNames(GetImmediateConnectionConfigs(rootDirectory, walk, load).value)
  {
    if walk.Walked? {
      var imm := ImmediateEntries(walk.entries);
      ImmediateNamesDistinct(walk.entries);
      DirectoryNamesDistinct(rootDirectory, imm);
      CollectMatchesStages(rootDirectory, imm, walk.completed, load);
      PresentDistinct(rootDirectory, DirectoryNames(rootDirectory, imm), load);
    }
  }

  /** A kept directory that loads puts its record in front of the rest. */
  lemma CollectFound(rootDirectory: string, e: Entry, rest: seq<Entry>, completed: bool, load: Loader,
                     c: ConnectionConfig, cs: seq<ConnectionConfig>)
    requires IsConnectionDirectory(rootDirectory, e)
    requires GetConnectionConfig(rootDirectory, e.name, load) == Normal(Some(c))
    requires Collect(rootDirectory, rest, completed, load) == Normal(cs)
    ensures Collect(rootDirectory, [e] + rest, completed, load) == Normal([c] + cs)
  {
    assert ([e] + rest)[0] == e && ([e] + rest)[1..] == rest;
  }

  /** An entry that is not a connection directory adds nothing. */
  lemma CollectSkipped(rootDirectory: string, e: Entry, rest: seq<Entry>, completed: bool, load: Loader)
    requires !IsConnectionDirectory(rootDirectory, e)
    ensures Collect(rootDirectory, [e] + rest, completed, load) == Collect(rootDirectory, rest, completed, load)
  {
    assert ([e] + rest)[0] == e && ([e] + rest)[1..] == rest;
  }

  /** A root `/r` holding `bar` and `foo`, where `foo` has a subdirectory
      also called `bar`, as a walk visits them. */
  function NestedEntries(): seq<Entry>
  {
    [Entry("/r", true, "r", 0),
     Entry("/r/bar", true, "bar", 1),
     Entry("/r/foo", true, "foo", 1),
     Entry("/r/foo/bar", true, "bar", 2)]
  }

  /** The descriptors under `/r`: `/r/bar` and `/r/foo` load; every other
      path, `/r/foo/bar` included, fails to open. */
  function NestedLoader(bar: ConnectionConfig, foo: ConnectionConfig): Loader
  {
    p => if p == ConfigPath("/r", "bar") then Loaded(bar)
         else if p == ConfigPath("/r", "foo") then Loaded(foo)
         else IOError
  }

  /** On that tree, `bar` and `foo` are looked up successfully. */
  lemma NestedLookups(bar: ConnectionConfig, foo: ConnectionConfig)
    ensures GetConnectionConfig("/r", "bar", NestedLoader(bar, foo)) == Normal(Some(WithName(bar, "bar")))
    ensures GetConnectionConfig("/r", "foo", NestedLoader(bar, foo)) == Normal(Some(WithName(foo, "foo")))
  {
    ConfigPathsDistinct("/r", "bar", "foo");
  }

  /** On that tree, every entry but the root is kept by the two filters. */
  lemma NestedKept()
    ensures var es := NestedEntries();
      && !IsConnectionDirectory("/r", es[0])
      && IsConnectionDirectory("/r", es[1])
      && IsConnectionDirectory("/r", es[2])
      && IsConnectionDirectory("/r", es[3])
  {
    var es := NestedEntries();
    assert |es[1].absolutePath| != 2 && |es[2].absolutePath| != 2 && |es[3].absolutePath| != 2;
  }

  /** The recursive walk lists `bar`, `foo` and `bar` again. */
  lemma NestedAsWritten(bar: ConnectionConfig, foo: ConnectionConfig)
    ensures GetConnectionConfigs("/r", Walked(NestedEntries(), true), NestedLoader(bar, foo))
      == Normal([WithName(bar, "bar"), WithName(foo, "foo"), WithName(bar, "bar")])
  {
    var es := NestedEntries();
    var e0, e1, e2, e3 := es[0], es[1], es[2], es[3];
    assert es == [e0, e1, e2, e3];
    var load := NestedLoader(bar, foo);
    var b, f := WithName(bar, "bar"), WithName(foo, "foo");
    NestedKept();
    NestedLookups(bar, foo);
    CollectFound("/r", e3, [], true, load, b, []);
    assert [e3] + [] == [e3] && [b] + [] == [b];
    CollectFound("/r", e2, [e3], true, load, f, [b]);
    assert [e2] + [e3] == [e2, e3] && [f] + [b] == [f, b];
    CollectFound("/r", e1, [e2, e3], true, load, b, [f, b]);
    assert [e1] + [e2, e3] == [e1, e2, e3] && [b] + [f, b] == [b, f, b];
    CollectSkipped("/r", e0, [e1, e2, e3], true, load);
    assert [e0] + [e1, e2, e3] == es;
  }

  /** On that tree, `/r/bar` and `/r/foo` are the immediate entries. */
  lemma NestedImmediateEntries()
    ensures var es := NestedEntries(); ImmediateEntries(es) == [es[1], es[2]]
  {
    var es := NestedEntries();
    var e0, e1, e2, e3 := es[0], es[1], es[2], es[3];
    assert es[1..] == [e1, e2, e3];
    assert [e1, e2, e3][1..] == [e2, e3];
    assert [e2, e3][1..] == [e3];
    assert [e3][1..] == [];
    assert ImmediateEntries([e3]) == [];
    assert ImmediateEntries([e2, e3]) == [e2];
    assert ImmediateEntries([e1, e2, e3]) == [e1, e2];
  }

  /** The immediate listing lists `bar` and `foo` once each. */
  lemma NestedImmediate(bar: ConnectionConfig, foo: ConnectionConfig)
    ensures GetImmediateConnectionConfigs("/r", Walked(NestedEntries(), true), NestedLoader(bar, foo))
      == Normal([WithName(bar, "bar"), WithName(foo, "foo")])
  {
    var es := NestedEntries();
    var e0, e1, e2, e3 := es[0], es[1], es[2], es[3];
    assert es == [e0, e1, e2, e3];
    var load := NestedLoader(bar, foo);
    var b, f := WithName(bar, "bar"), WithName(foo, "foo");
    NestedImmediateEntries();
    NestedKept();
    NestedLookups(bar, foo);
    CollectFound("/r", e2, [], true, load, f, []);
    assert [e2] + [] == [e2] && [f] + [] == [f];
    CollectFound("/r", e1, [e2], true, load, b, [f]);
    assert [e1] + [e2] == [e1, e2] && [b] + [f] == [b, f];
  }

  /** On that tree, whose sibling directories have distinct names, the
      recursive walk lists the record of `bar` twice (the nested directory
      is looked up as `/r/bar`), while the immediate listing lists `bar` and
      `foo` once each. */
  lemma NestedDirectoryListedTwice(bar: ConnectionConfig, foo: ConnectionConfig)
    ensures DistinctSiblings(NestedEntries())
    ensures var r := GetConnectionConfigs("/r", Walked(NestedEntries(), true), NestedLoader(bar, foo));
      r.Normal? && !DistinctRecordNames(r.value)
    ensures var r := GetImmediateConnectionConfigs("/r", Walked(NestedEntries(), true), NestedLoader(bar, foo));
      r.Normal? && DistinctRecordNames(r.value) && |r.value| == 2
  {
    NestedAsWritten(bar, foo);
    NestedImmediate(bar, foo);
    var r := [WithName(bar, "bar"), WithName(foo, "foo"), WithName(bar, "bar")];
    assert r[0].name == r[2].name;
  }
}
