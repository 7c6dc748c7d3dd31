/**
 * A classpath scanner that collects the classes of a capability type.
 *
 * The classpath string, the file system under it and the entry names of each
 * archive are inputs; `Class.forName` is the abstract loader of module
 * JavaTypes. Paths use the Unix separators: `:` between classpath entries and
 * `/` inside paths and archive entry names.
 */
module ClassLocating {
  import opened Wrappers
  import opened JavaTypes
  import opened JavaChars

  const ClassExtension: string := ".class"
  const JarExtension: string := ".jar"
  /** `File.pathSeparator`. */
  const PathSeparator: char := ':'
  /** `File.separator`, and the separator of archive entry names. */
  const Separator: char := '/'

  /** A directory entry, as `File.listFiles` lists it: a regular file, a
      directory with its own listing, or anything else (neither). */
  datatype Node = FileNode(name: string) | DirNode(name: string, children: seq<Node>) | OtherNode(name: string)

  /** What a classpath token names: a directory, or a regular file together with
      its archive entry names (None when it cannot be opened as a jar). */
  datatype PathEntry = Directory(children: seq<Node>) | RegularFile(archive: Option<seq<string>>)

  /** Tokens the file system does not know are neither directory nor file. */
  type FileSystem = map<string, PathEntry>

  /** The throwables that escape the directory walk. */
  datatype ScanError =
    | ClassCast(name: string)          // ClassCastException from asSubclass
    | InitializerFailed(name: string)  // ExceptionInInitializerError not caused by a HeadlessException
    | LinkageFailed(name: string)      // any other error of Class.forName

  /** What trying one candidate class name comes to. */
  datatype Verdict = Match | Skip | Fatal(error: ScanError)

  // ---------------------------------------------------------------------------
  // Names
  // ---------------------------------------------------------------------------

  /** `s.toLowerCase().endsWith(".class")`. */
  predicate IsClassFile(s: string)
  {
    EndsWith(Lower(s), ClassExtension)
  }

  /** `String.replace('/', '.')`. */
  function Dotted(s: string): (r: string)
    ensures |r| == |s| && Separator !in r
    ensures forall k :: 0 <= k < |s| && s[k] == Separator ==> r[k] == '.'
    ensures forall k :: 0 <= k < |s| && s[k] != Separator ==> r[k] == s[k]
  {
    seq(|s|, k requires 0 <= k < |s| => if s[k] == Separator then '.' else s[k])
  }

  /** The class name of a `.class` file found under package prefix `prefix`. */
  function DirectoryCandidate(prefix: string, fileName: string): (cn: string)
    requires IsClassFile(fileName)
    ensures |cn| == |prefix| + |fileName| - |ClassExtension|
    ensures cn + fileName[|fileName| - |ClassExtension|..] == prefix + fileName
  {
    prefix + fileName[..|fileName| - 6]
  }

  /** The class name of a `.class` archive entry. */
  function ArchiveCandidate(entry: string): (cn: string)
    requires IsClassFile(entry)
    ensures |cn| == |entry| - |ClassExtension| && Separator !in cn
    ensures forall k :: 0 <= k < |cn| && entry[k] == Separator ==> cn[k] == '.'
    ensures forall k :: 0 <= k < |cn| && entry[k] != Separator ==> cn[k] == entry[k]
    ensures Lower(entry[|cn|..]) == ClassExtension
  {
    assert Lower(entry[|entry| - 6..]) == Lower(entry)[|entry| - 6..];
    Dotted(entry[..|entry| - 6])
  }

  /** Java's `StringTokenizer`: the maximal runs of characters other than `sep`,
      in order; empty runs are skipped. */
  function Tokens(s: string, sep: char): (ts: seq<string>)
    ensures forall t :: t in ts ==> t != [] && sep !in t
    decreases |s|
  {
    if s == [] then []
    else if s[0] == sep then Tokens(s[1..], sep)
    else
      var n := Run(s, sep);
      [s[..n]] + Tokens(s[n..], sep)
  }

  /** The length of the run of non-separator characters that starts `s`. */
  function Run(s: string, sep: char): (n: nat)
    ensures n <= |s| && sep !in s[..n]
    ensures n < |s| ==> s[n] == sep
    ensures s != [] && s[0] != sep ==> n > 0
  {
    if s == [] || s[0] == sep then 0 else 1 + Run(s[1..], sep)
  }

  /** The tokens put back together with one separator between neighbours. */
  function Join(ts: seq<string>, sep: char): string
  {
    if ts == [] then [] else if |ts| == 1 then ts[0] else ts[0] + [sep] + Join(ts[1..], sep)
  }

  /** `File.getName`: the last name of the path once repeated and trailing separators are gone. */
  function FileName(path: string): (name: string)
    ensures Separator !in name
  {
    var names := Tokens(path, Separator);
    if names == [] then [] else assert names[|names| - 1] in names; names[|names| - 1]
  }

  /** The name is empty exactly when the path is separators only, and otherwise is the
      last run of the path, preceded by a separator or the start, with only separators after it. */
  lemma FileNameIsLastRun(path: string)
    ensures FileName(path) == [] <==> forall k :: 0 <= k < |path| ==> path[k] == Separator
    ensures FileName(path) != [] ==> LastRun(path, Separator, FileName(path))
  {
    TokensNone(path, Separator);
    if Tokens(path, Separator) != [] {
      TokensLast(path, Separator);
      var names := Tokens(path, Separator);
      assert names[|names| - 1] in names;
    }
  }

  /** `t` starts at `i` in `s`, right after a separator (or at the start), and only separators follow it. */
  predicate EndsAt(s: string, sep: char, t: string, i: nat)
  {
    && i + |t| <= |s| && s[i..i + |t|] == t && (i == 0 || s[i - 1] == sep)
    && forall k :: i + |t| <= k < |s| ==> s[k] == sep
  }

  /** `t` is the run of `s` before its trailing separators. */
  ghost predicate LastRun(s: string, sep: char, t: string)
  {
    exists i: nat | i <= |s| :: EndsAt(s, sep, t, i)
  }

  /** A run found in a suffix of `s` is found in `s`, when what precedes it is a separator. */
  lemma EndsAtShift(s: string, sep: char, t: string, n: nat, i: nat)
    requires n <= |s| && EndsAt(s[n..], sep, t, i)
    requires i > 0 || n == 0 || s[n - 1] == sep
    ensures EndsAt(s, sep, t, n + i)
  {
    assert s[n + i..n + i + |t|] == s[n..][i..i + |t|];
    forall k | n + i + |t| <= k < |s| ensures s[k] == sep {
      assert s[k] == s[n..][k - n];
    }
    if i > 0 {
      assert s[n + i - 1] == s[n..][i - 1];
    }
  }

  /** A run after a leading separator cannot start at 0. */
  lemma EndsAtNotFirst(s: string, sep: char, t: string, i: nat)
    requires s != [] && s[0] == sep && t != [] && sep !in t && EndsAt(s, sep, t, i)
    ensures i > 0
  {
    assert s[i..i + |t|][0] == s[i];
    assert t[0] in t;
  }

  /** There are no tokens exactly when `s` is separators only. */
  lemma {:induction false} TokensNone(s: string, sep: char)
    ensures Tokens(s, sep) == [] <==> forall k :: 0 <= k < |s| ==> s[k] == sep
    decreases |s|
  {
    if s != [] && s[0] == sep {
      var rest := s[1..];
      TokensNone(rest, sep);
      forall k | 0 < k < |s| ensures s[k] == rest[k - 1] { }
    }
  }

  /** Otherwise the last token is the run before the trailing separators. */
  lemma {:induction false} TokensLast(s: string, sep: char)
    requires Tokens(s, sep) != []
    ensures LastRun(s, sep, Tokens(s, sep)[|Tokens(s, sep)| - 1])
    decreases |s|
  {
    if s[0] == sep {
      TokensLast(s[1..], sep);
      var ts := Tokens(s[1..], sep);
      var i: nat :| EndsAt(s[1..], sep, ts[|ts| - 1], i);
      EndsAtShift(s, sep, ts[|ts| - 1], 1, i);
    } else {
      var n := Run(s, sep);
      var rest := s[n..];
      var ts := Tokens(rest, sep);
      TokensNone(rest, sep);
      if ts == [] {
        forall k | n <= k < |s| ensures s[k] == sep {
          assert s[k] == rest[k - n];
        }
        assert s[..n] == s[0..n];
        assert EndsAt(s, sep, s[..n], 0);
      } else {
        TokensLast(rest, sep);
        var t := ts[|ts| - 1];
        assert t in ts;
        var i: nat :| EndsAt(rest, sep, t, i);
        assert rest[0] == s[n];
        EndsAtNotFirst(rest, sep, t, i);
        EndsAtShift(s, sep, t, n, i);
      }
    }
  }

  lemma {:induction false} RunOfToken(t: string, rest: string, sep: char)
    requires sep !in t
    requires rest == [] || rest[0] == sep
    ensures Run(t + rest, sep) == |t|
    decreases |t|
  {
    if t != [] {
      assert (t + rest)[1..] == t[1..] + rest;
      RunOfToken(t[1..], rest, sep);
    } else {
      assert t + rest == rest;
    }
  }

  lemma TokensOfToken(t: string, rest: string, sep: char)
    requires t != [] && sep !in t
    requires rest == [] || rest[0] == sep
    ensures Tokens(t + rest, sep) == [t] + Tokens(rest, sep)
  {
    var s := t + rest;
    RunOfToken(t, rest, sep);
    assert s[..|t|] == t;
    assert s[|t|..] == rest;
  }

  /** Joining non-empty separator-free tokens and splitting again gives them back. */
  lemma {:induction false} TokensJoin(ts: seq<string>, sep: char)
    requires forall t :: t in ts ==> t != [] && sep !in t
    ensures Tokens(Join(ts, sep), sep) == ts
    decreases |ts|
  {
    if |ts| == 1 {
      assert ts[0] in ts;
      TokensOfToken(ts[0], [], sep);
      assert ts[0] + [] == ts[0];
    } else if |ts| > 1 {
      var rest := Join(ts[1..], sep);
      assert ts[0] in ts;
      assert forall t :: t in ts[1..] ==> t in ts;
      assert ts[0] + [sep] + rest == ts[0] + ([sep] + rest);
      TokensOfToken(ts[0], [sep] + rest, sep);
      assert ([sep] + rest)[1..] == rest;
      TokensJoin(ts[1..], sep);
      assert ts == [ts[0]] + ts[1..];
    }
  }

  /** Empty entries, leading and trailing separators are ignored: `a::b:` has the tokens `a` and `b`. */
  lemma EmptyTokensSkipped(a: string, b: string, sep: char)
    requires a != [] && sep !in a && b != [] && sep !in b
    ensures Tokens(a + [sep, sep] + b + [sep], sep) == [a, b]
  {
    var tail := b + [sep];
    assert a + [sep, sep] + b + [sep] == a + ([sep] + ([sep] + tail));
    TokensOfToken(a, [sep] + ([sep] + tail), sep);
    SeparatorSkipped([sep] + tail, sep);
    SeparatorSkipped(tail, sep);
    TokensOfToken(b, [sep], sep);
    SeparatorSkipped([], sep);
    assert [sep] + [] == [sep];
  }

  lemma SeparatorSkipped(rest: string, sep: char)
    ensures Tokens([sep] + rest, sep) == Tokens(rest, sep)
  {
    assert ([sep] + rest)[1..] == rest;
  }

  // ---------------------------------------------------------------------------
  // One candidate
  // ---------------------------------------------------------------------------

  /** `Class.forName`, the `isAssignableFrom` test and `interfaceClass.asSubclass(cls)`,
      with the directory walk's catch clauses deciding what is skipped. */
  function Examine(iface: JClass, loader: ClassLoader, cn: string): Verdict
  {
    match loader.Load(cn)
    case Loaded(k) =>
      if !Assignable(iface, k) then Skip
      else if Assignable(k, iface) then Match
      else Fatal(ClassCast(cn))
    case ClassNotFound => Skip
    case NoClassDefFound => Skip
    // `Class.forName(name, false, loader)` does not initialize the class, so this
    // catch is never reached in the source; it is kept to follow the code as written.
    case InitializerError(headless) => if headless then Skip else Fatal(InitializerFailed(cn))
    case OtherError => Fatal(LinkageFailed(cn))
  }

  /** A candidate matches exactly when it loads to the capability type itself. */
  lemma MatchIsInterface(iface: JClass, loader: ClassLoader, cn: string, k: JClass)
    requires loader.Load(cn) == Loaded(k) && Acyclic(iface, k)
    ensures Examine(iface, loader, cn) == Match <==> k == iface
  {
  }

  /** A proper subtype of the capability type makes `asSubclass` throw. */
  lemma ProperSubtypeIsFatal(iface: JClass, loader: ClassLoader, cn: string, k: JClass)
    requires loader.Load(cn) == Loaded(k) && Acyclic(iface, k)
    requires k != iface && iface.name in k.supertypes
    ensures Examine(iface, loader, cn) == Fatal(ClassCast(cn))
  {
  }

  // ---------------------------------------------------------------------------
  // The directory walk
  // ---------------------------------------------------------------------------

  /** The classes appended, and the throwable that ended the walk, if any. */
  datatype Outcome = Outcome(found: seq<JClass>, error: Option<ScanError>)

  const Nothing: Outcome := Outcome([], None)

  /** `a` followed by `b`, unless `a` has already thrown. */
  function Then(a: Outcome, b: Outcome): Outcome
  {
    if a.error.Some? then a else Outcome(a.found + b.found, b.error)
  }

  function Visit(iface: JClass, loader: ClassLoader, cn: string): Outcome
  {
    match Examine(iface, loader, cn)
    case Match => Outcome([iface], None)
    case Skip => Nothing
    case Fatal(e) => Outcome([], Some(e))
  }

  /** One entry of a directory listing under package prefix `prefix`. */
  function WalkNode(iface: JClass, loader: ClassLoader, prefix: string, n: Node): (o: Outcome)
    ensures forall c :: c in o.found ==> c == iface
    decreases n
  {
    match n
    case FileNode(name) => if IsClassFile(name) then Visit(iface, loader, DirectoryCandidate(prefix, name)) else Nothing
    case DirNode(name, children) => WalkNodes(iface, loader, prefix + name + ".", children)
    case OtherNode(_) => Nothing
  }

  /** A directory listing, in order, stopping at the first throwable. */
  function WalkNodes(iface: JClass, loader: ClassLoader, prefix: string, ns: seq<Node>): (o: Outcome)
    ensures forall c :: c in o.found ==> c == iface
    decreases ns
  {
    if ns == [] then Nothing
    else Then(WalkNodes(iface, loader, prefix, ns[..|ns| - 1]), WalkNode(iface, loader, prefix, ns[|ns| - 1]))
  }

  lemma WalkNodesStep(iface: JClass, loader: ClassLoader, prefix: string, ns: seq<Node>, i: nat)
    requires i < |ns|
    ensures WalkNodes(iface, loader, prefix, ns[..i + 1]) == Then(WalkNodes(iface, loader, prefix, ns[..i]), WalkNode(iface, loader, prefix, ns[i]))
  {
    assert ns[..i + 1][..i] == ns[..i];
  }

  /** Once an entry throws, the entries after it are never looked at. */
  lemma {:induction false} WalkStops(iface: JClass, loader: ClassLoader, prefix: string, ns: seq<Node>, j: nat)
    requires j <= |ns|
    requires WalkNodes(iface, loader, prefix, ns[..j]).error.Some?
    ensures WalkNodes(iface, loader, prefix, ns) == WalkNodes(iface, loader, prefix, ns[..j])
    decreases |ns| - j
  {
    if j < |ns| {
      assert ns[..j + 1][..j] == ns[..j];
      WalkStops(iface, loader, prefix, ns, j + 1);
    } else {
      assert ns[..j] == ns;
    }
  }

  /** The intended test, `cls.asSubclass(interfaceClass)`, in the directory walk: a
      loaded class assignable to the capability type is found; load failures are
      caught or escape as in `Examine`. */
  function VisitIntended(iface: JClass, loader: ClassLoader, cn: string): Outcome
  {
    match loader.Load(cn)
    case Loaded(k) => if Assignable(iface, k) then Outcome([k], None) else Nothing
    case ClassNotFound => Nothing
    case NoClassDefFound => Nothing
    case InitializerError(headless) => if headless then Nothing else Outcome([], Some(InitializerFailed(cn)))
    case OtherError => Outcome([], Some(LinkageFailed(cn)))
  }

  function WalkNodeIntended(iface: JClass, loader: ClassLoader, prefix: string, n: Node): (o: Outcome)
    ensures forall c :: c in o.found ==> Assignable(iface, c)
    decreases n
  {
    match n
    case FileNode(name) => if IsClassFile(name) then VisitIntended(iface, loader, DirectoryCandidate(prefix, name)) else Nothing
    case DirNode(name, children) => WalkNodesIntended(iface, loader, prefix + name + ".", children)
    case OtherNode(_) => Nothing
  }

  function WalkNodesIntended(iface: JClass, loader: ClassLoader, prefix: string, ns: seq<Node>): (o: Outcome)
    ensures forall c :: c in o.found ==> Assignable(iface, c)
    decreases ns
  {
    if ns == [] then Nothing
    else Then(WalkNodesIntended(iface, loader, prefix, ns[..|ns| - 1]), WalkNodeIntended(iface, loader, prefix, ns[|ns| - 1]))
  }

  /** A class file somewhere under the entry whose candidate name loads `c`. */
  predicate NodeProvides(loader: ClassLoader, prefix: string, n: Node, c: JClass)
    decreases n
  {
    match n
    case FileNode(name) => IsClassFile(name) && loader.Load(DirectoryCandidate(prefix, name)) == Loaded(c)
    case DirNode(name, children) => NodesProvide(loader, prefix + name + ".", children, c)
    case OtherNode(_) => false
  }

  predicate NodesProvide(loader: ClassLoader, prefix: string, ns: seq<Node>, c: JClass)
    decreases ns
  {
    ns != [] && (NodesProvide(loader, prefix, ns[..|ns| - 1], c) || NodeProvides(loader, prefix, ns[|ns| - 1], c))
  }

  /** When nothing escapes, the intended walk finds exactly the classes of the tree's
      class files that are assignable to the capability type. */
  lemma {:induction false} WalkNodeIntendedFinds(iface: JClass, loader: ClassLoader, prefix: string, n: Node, c: JClass)
    requires WalkNodeIntended(iface, loader, prefix, n).error.None?
    ensures c in WalkNodeIntended(iface, loader, prefix, n).found <==> Assignable(iface, c) && NodeProvides(loader, prefix, n, c)
    decreases n
  {
    match n
    case FileNode(name) =>
    case DirNode(name, children) => WalkNodesIntendedFinds(iface, loader, prefix + name + ".", children, c);
    case OtherNode(_) =>
  }

  lemma {:induction false} WalkNodesIntendedFinds(iface: JClass, loader: ClassLoader, prefix: string, ns: seq<Node>, c: JClass)
    requires WalkNodesIntended(iface, loader, prefix, ns).error.None?
    ensures c in WalkNodesIntended(iface, loader, prefix, ns).found <==> Assignable(iface, c) && NodesProvide(loader, prefix, ns, c)
    decreases ns
  {
    if ns != [] {
      var init, last := ns[..|ns| - 1], ns[|ns| - 1];
      WalkNodesIntendedFinds(iface, loader, prefix, init, c);
      WalkNodeIntendedFinds(iface, loader, prefix, last, c);
    }
  }

  // ---------------------------------------------------------------------------
  // The archive scan
  // ---------------------------------------------------------------------------

  /** One archive entry: every throwable is swallowed. */
  function ArchiveEntry(iface: JClass, loader: ClassLoader, entry: string): seq<JClass>
  {
    if IsClassFile(entry) && Examine(iface, loader, ArchiveCandidate(entry)) == Match then [iface] else []
  }

  /** The entries of an archive, in order. */
  function ScanEntries(iface: JClass, loader: ClassLoader, entries: seq<string>): (found: seq<JClass>)
    ensures |found| <= |entries|
    ensures forall c :: c in found ==> c == iface
  {
    if entries == [] then []
    else ScanEntries(iface, loader, entries[..|entries| - 1]) + ArchiveEntry(iface, loader, entries[|entries| - 1])
  }

  lemma ScanEntriesStep(iface: JClass, loader: ClassLoader, entries: seq<string>, i: nat)
    requires i < |entries|
    ensures ScanEntries(iface, loader, entries[..i + 1]) == ScanEntries(iface, loader, entries[..i]) + ArchiveEntry(iface, loader, entries[i])
  {
    assert entries[..i + 1][..i] == entries[..i];
  }

  /** An archive that cannot be opened contributes nothing. */
  function ScanArchive(iface: JClass, loader: ClassLoader, archive: Option<seq<string>>): seq<JClass>
  {
    if archive.None? then [] else ScanEntries(iface, loader, archive.value)
  }

  /** The intended test, `cls.asSubclass(interfaceClass)`: an entry contributes
      the class it loads whenever that class is assignable to the capability type. */
  function ArchiveEntryIntended(iface: JClass, loader: ClassLoader, entry: string): seq<JClass>
  {
    if !IsClassFile(entry) then []
    else match loader.Load(ArchiveCandidate(entry))
      case Loaded(k) => if Assignable(iface, k) then [k] else []
      case _ => []
  }

  /** The archive scan with the intended test. */
  function ScanEntriesIntended(iface: JClass, loader: ClassLoader, entries: seq<string>): (found: seq<JClass>)
    ensures |found| <= |entries|
    ensures forall c :: c in found ==> Assignable(iface, c)
  {
    if entries == [] then []
    else ScanEntriesIntended(iface, loader, entries[..|entries| - 1]) + ArchiveEntryIntended(iface, loader, entries[|entries| - 1])
  }

  /** An entry that names a class file and loads a class. */
  predicate Provides(loader: ClassLoader, entry: string, c: JClass)
  {
    IsClassFile(entry) && loader.Load(ArchiveCandidate(entry)) == Loaded(c)
  }

  /** With the intended test the scan finds exactly the classes of the archive's
      entries that are assignable to the capability type. */
  lemma {:induction false} ScanEntriesIntendedFinds(iface: JClass, loader: ClassLoader, entries: seq<string>, c: JClass)
    ensures c in ScanEntriesIntended(iface, loader, entries) <==>
      Assignable(iface, c) && exists e :: e in entries && Provides(loader, e, c)
    decreases |entries|
  {
    if entries != [] {
      var init := entries[..|entries| - 1];
      var last := entries[|entries| - 1];
      ScanEntriesIntendedFinds(iface, loader, init, c);
      assert entries == init + [last];
      assert c in ArchiveEntryIntended(iface, loader, last) <==> Assignable(iface, c) && Provides(loader, last, c);
      if c in ScanEntriesIntended(iface, loader, entries) {
        if c in ScanEntriesIntended(iface, loader, init) {
          var e :| e in init && Provides(loader, e, c);
          assert e in entries;
        } else {
          assert last in entries;
        }
      }
      if Assignable(iface, c) && exists e :: e in entries && Provides(loader, e, c) {
        var e :| e in entries && Provides(loader, e, c);
        if e != last {
          assert e in init;
        }
      }
    }
  }

  /** A proper subtype of the capability type in an archive: the scan as written
      drops it, the intended scan finds it. */
  lemma ArchiveSubtypeFound(iface: JClass, loader: ClassLoader, base: string, k: JClass)
    requires Separator !in base
    requires loader.Load(base) == Loaded(k) && Acyclic(iface, k)
    requires k != iface && iface.name in k.supertypes
    ensures ScanEntries(iface, loader, [base + ClassExtension]) == []
    ensures ScanEntriesIntended(iface, loader, [base + ClassExtension]) == [k]
  {
    var f := base + ClassExtension;
    assert Lower(f)[|f| - 6..] == ClassExtension;
    assert f[..|f| - 6] == base;
    DottedKeeps(base);
    assert [f][..0] == [];
  }

  lemma {:induction false} ScanEntriesAppend(iface: JClass, loader: ClassLoader, a: seq<string>, b: seq<string>)
    ensures ScanEntries(iface, loader, a + b) == ScanEntries(iface, loader, a) + ScanEntries(iface, loader, b)
    decreases |b|
  {
    if b == [] {
      assert a + b == a;
    } else {
      var b' := b[..|b| - 1];
      assert (a + b)[..|a + b| - 1] == a + b';
      ScanEntriesAppend(iface, loader, a, b');
    }
  }

  // ---------------------------------------------------------------------------
  // The classpath
  // ---------------------------------------------------------------------------

  /** One classpath token: a directory is walked, a file named `*.jar` in any case is scanned, the rest ignored. */
  function ScanToken(iface: JClass, loader: ClassLoader, fs: FileSystem, token: string): Outcome
  {
    if token !in fs then Nothing
    else match fs[token]
      case Directory(children) => WalkNodes(iface, loader, "", children)
      case RegularFile(archive) =>
        if EndsWith(Lower(FileName(token)), JarExtension) then Outcome(ScanArchive(iface, loader, archive), None)
        else Nothing
  }

  function ScanTokens(iface: JClass, loader: ClassLoader, fs: FileSystem, ts: seq<string>): Outcome
  {
    if ts == [] then Nothing
    else Then(ScanTokens(iface, loader, fs, ts[..|ts| - 1]), ScanToken(iface, loader, fs, ts[|ts| - 1]))
  }

  /** `searchProviderClasses`: the list, or the throwable that escaped the walk. */
  function Search(iface: JClass, loader: ClassLoader, fs: FileSystem, classpath: string): (r: Result<seq<JClass>, ScanError>)
  {
    var o := ScanTokens(iface, loader, fs, Tokens(classpath, PathSeparator));
    if o.error.Some? then Err(o.error.value) else Ok(o.found)
  }

  lemma ThenAssoc(a: Outcome, b: Outcome, c: Outcome)
    ensures Then(Then(a, b), c) == Then(a, Then(b, c))
  {
  }

  /** Scanning two classpaths one after the other is scanning their concatenation:
      results are appended in discovery order and nothing is deduplicated. */
  lemma {:induction false} ScanTokensAppend(iface: JClass, loader: ClassLoader, fs: FileSystem, a: seq<string>, b: seq<string>)
    ensures ScanTokens(iface, loader, fs, a + b) == Then(ScanTokens(iface, loader, fs, a), ScanTokens(iface, loader, fs, b))
    decreases |b|
  {
    if b == [] {
      assert a + b == a;
    } else {
      var b' := b[..|b| - 1];
      assert (a + b)[..|a + b| - 1] == a + b';
      ScanTokensAppend(iface, loader, fs, a, b');
      ThenAssoc(ScanTokens(iface, loader, fs, a), ScanTokens(iface, loader, fs, b'), ScanToken(iface, loader, fs, b[|b| - 1]));
    }
  }

  /** Every class the search returns is the capability type itself. */
  lemma {:induction false} SearchFindsInterface(iface: JClass, loader: ClassLoader, fs: FileSystem, classpath: string)
    ensures var r := Search(iface, loader, fs, classpath);
      r.Ok? ==> forall c :: c in r.value ==> c == iface
  {
    ScanTokensFindInterface(iface, loader, fs, Tokens(classpath, PathSeparator));
  }

  lemma {:induction false} ScanTokensFindInterface(iface: JClass, loader: ClassLoader, fs: FileSystem, ts: seq<string>)
    ensures forall c :: c in ScanTokens(iface, loader, fs, ts).found ==> c == iface
    decreases |ts|
  {
    if ts != [] {
      ScanTokensFindInterface(iface, loader, fs, ts[..|ts| - 1]);
    }
  }

  /** A classpath that names the same entry twice reports its classes twice. */
  lemma RepeatedEntryTwice(iface: JClass, loader: ClassLoader, fs: FileSystem, t: string)
    requires t != [] && PathSeparator !in t
    requires ScanToken(iface, loader, fs, t).error.None?
    ensures var f := ScanToken(iface, loader, fs, t).found;
      Search(iface, loader, fs, t + [PathSeparator] + t) == Ok(f + f)
  {
    TokensJoin([t, t], PathSeparator);
    assert Join([t, t], PathSeparator) == t + [PathSeparator] + t;
    var f := ScanToken(iface, loader, fs, t).found;
    assert [t][..0] == [];
    assert ScanTokens(iface, loader, fs, [t]) == Outcome([] + f, None);
    assert [] + f == f;
    assert [t, t][..1] == [t];
  }

  // ---------------------------------------------------------------------------
  // A directory tree and the archive made of it find the same classes
  // ---------------------------------------------------------------------------

  /** The entry names a jar built from this listing would have for its files. */
  function EntryNames(path: string, ns: seq<Node>): seq<string>
    decreases ns
  {
    if ns == [] then [] else EntryNames(path, ns[..|ns| - 1]) + EntryNamesOf(path, ns[|ns| - 1])
  }

  function EntryNamesOf(path: string, n: Node): seq<string>
    decreases n
  {
    match n
    case FileNode(name) => [path + name]
    case DirNode(name, children) => EntryNames(path + name + [Separator], children)
    case OtherNode(_) => []
  }

  /** File and directory names never hold a separator. */
  predicate NodeNamed(n: Node)
    decreases n
  {
    match n
    case FileNode(name) => Separator !in name
    case DirNode(name, children) => Separator !in name && AllNamed(children)
    case OtherNode(_) => true
  }

  predicate AllNamed(ns: seq<Node>)
    decreases ns
  {
    forall i :: 0 <= i < |ns| ==> NodeNamed(ns[i])
  }

  lemma DottedAppend(a: string, b: string)
    ensures Dotted(a + b) == Dotted(a) + Dotted(b)
  {
  }

  lemma DottedKeeps(s: string)
    requires Separator !in s
    ensures Dotted(s) == s
  {
  }

  lemma LowerAppend(a: string, b: string)
    ensures Lower(a + b) == Lower(a) + Lower(b)
  {
  }

  /** Whether a file counts as a class file does not depend on the directory it sits in. */
  lemma ClassFileInDirectory(path: string, name: string)
    requires path == [] || path[|path| - 1] == Separator
    ensures IsClassFile(path + name) <==> IsClassFile(name)
  {
    var s := path + name;
    LowerAppend(path, name);
    if |name| >= 6 {
      assert Lower(s)[|s| - 6..] == Lower(name)[|name| - 6..];
    } else if path != [] && |s| >= 6 {
      var l := Lower(s);
      var k := |path| - 1 - (|s| - 6);
      assert l[|path| - 1] == '/';
      assert l[|s| - 6..][k] == '/';
      assert ClassExtension[k] != '/';
    }
  }

  /** A class file found in a directory and the same file found in an archive give the same class name. */
  lemma CandidateInDirectory(path: string, name: string)
    requires path == [] || path[|path| - 1] == Separator
    requires Separator !in name && IsClassFile(name)
    ensures IsClassFile(path + name)
    ensures ArchiveCandidate(path + name) == DirectoryCandidate(Dotted(path), name)
  {
    ClassFileInDirectory(path, name);
    var s := path + name;
    assert s[..|s| - 6] == path + name[..|name| - 6];
    DottedAppend(path, name[..|name| - 6]);
    DottedKeeps(name[..|name| - 6]);
  }

  lemma {:induction false} DirectoryAsArchive(iface: JClass, loader: ClassLoader, path: string, ns: seq<Node>)
    requires path == [] || path[|path| - 1] == Separator
    requires AllNamed(ns)
    requires WalkNodes(iface, loader, Dotted(path), ns).error.None?
    ensures WalkNodes(iface, loader, Dotted(path), ns).found == ScanEntries(iface, loader, EntryNames(path, ns))
    decreases ns
  {
    if ns != [] {
      var init, last := ns[..|ns| - 1], ns[|ns| - 1];
      assert AllNamed(init) by {
        forall i | 0 <= i < |init| ensures NodeNamed(init[i]) {
          assert init[i] == ns[i];
        }
      }
      DirectoryAsArchive(iface, loader, path, init);
      NodeAsArchive(iface, loader, path, last);
      ScanEntriesAppend(iface, loader, EntryNames(path, init), EntryNamesOf(path, last));
    }
  }

  lemma {:induction false} NodeAsArchive(iface: JClass, loader: ClassLoader, path: string, n: Node)
    requires path == [] || path[|path| - 1] == Separator
    requires NodeNamed(n)
    requires WalkNode(iface, loader, Dotted(path), n).error.None?
    ensures WalkNode(iface, loader, Dotted(path), n).found == ScanEntries(iface, loader, EntryNamesOf(path, n))
    decreases n
  {
    match n
    case FileNode(name) =>
      ClassFileInDirectory(path, name);
      if IsClassFile(name) {
        CandidateInDirectory(path, name);
      }
      assert ScanEntries(iface, loader, [path + name]) == ArchiveEntry(iface, loader, path + name) by {
        assert [path + name][..0] == [];
      }
    case DirNode(name, children) =>
      var sub := path + name + [Separator];
      DottedAppend(path + name, [Separator]);
      DottedAppend(path, name);
      DottedKeeps(name);
      assert Dotted(sub) == Dotted(path) + name + ".";
      DirectoryAsArchive(iface, loader, sub, children);
    case OtherNode(_) =>
  }

  /** A directory tree whose walk throws nothing finds exactly the classes that a
      jar of the same files finds: the two name derivations agree, and the two
      catch policies differ only on throwables. */
  lemma TreeMatchesJar(iface: JClass, loader: ClassLoader, ns: seq<Node>)
    requires AllNamed(ns)
    requires WalkNodes(iface, loader, "", ns).error.None?
    ensures WalkNodes(iface, loader, "", ns).found == ScanArchive(iface, loader, Some(EntryNames("", ns)))
  {
    assert Dotted("") == "";
    DirectoryAsArchive(iface, loader, "", ns);
  }

  /** The two catch policies side by side: a proper subtype stops the directory
      walk with a ClassCastException but is skipped in an archive. */
  lemma SubtypePolicies(iface: JClass, loader: ClassLoader, base: string, k: JClass)
    requires Separator !in base
    requires loader.Load(base) == Loaded(k) && Acyclic(iface, k)
    requires k != iface && iface.name in k.supertypes
    ensures WalkNodes(iface, loader, "", [FileNode(base + ClassExtension)]) == Outcome([], Some(ClassCast(base)))
    ensures ScanArchive(iface, loader, Some([base + ClassExtension])) == []
  {
    OneFileWalk(iface, loader, base);
    OneEntryScan(iface, loader, base);
  }

  /** A proper subtype of the capability type in a directory: the walk as written
      throws, the intended walk finds it. */
  lemma DirectorySubtypeFound(iface: JClass, loader: ClassLoader, base: string, k: JClass)
    requires Separator !in base
    requires loader.Load(base) == Loaded(k) && Acyclic(iface, k)
    requires k != iface && iface.name in k.supertypes
    ensures WalkNodes(iface, loader, "", [FileNode(base + ClassExtension)]) == Outcome([], Some(ClassCast(base)))
    ensures WalkNodesIntended(iface, loader, "", [FileNode(base + ClassExtension)]) == Outcome([k], None)
  {
    var f := base + ClassExtension;
    assert Lower(f)[|f| - 6..] == ClassExtension;
    assert f[..|f| - 6] == base;
    assert "" + base == base;
    assert [FileNode(f)][..0] == [];
  }

  /** For each way loading a candidate can end, what a one-file directory and a
      one-entry archive holding `base.class` come to: the directory walk catches
      only the not-found errors and a headless initializer failure, the archive scan
      catches everything. */
  lemma CatchPolicies(iface: JClass, loader: ClassLoader, base: string)
    requires Separator !in base
    ensures loader.Load(base) == ClassNotFound || loader.Load(base) == NoClassDefFound || loader.Load(base) == InitializerError(true) ==>
      && WalkNodes(iface, loader, "", [FileNode(base + ClassExtension)]) == Nothing
      && ScanArchive(iface, loader, Some([base + ClassExtension])) == []
    ensures loader.Load(base) == InitializerError(false) ==>
      && WalkNodes(iface, loader, "", [FileNode(base + ClassExtension)]) == Outcome([], Some(InitializerFailed(base)))
      && ScanArchive(iface, loader, Some([base + ClassExtension])) == []
    ensures loader.Load(base) == OtherError ==>
      && WalkNodes(iface, loader, "", [FileNode(base + ClassExtension)]) == Outcome([], Some(LinkageFailed(base)))
      && ScanArchive(iface, loader, Some([base + ClassExtension])) == []
    ensures loader.Load(base) == Loaded(iface) ==>
      && WalkNodes(iface, loader, "", [FileNode(base + ClassExtension)]) == Outcome([iface], None)
      && ScanArchive(iface, loader, Some([base + ClassExtension])) == [iface]
    ensures loader.Load(base).Loaded? && !Assignable(iface, loader.Load(base).cls) ==>
      && WalkNodes(iface, loader, "", [FileNode(base + ClassExtension)]) == Nothing
      && ScanArchive(iface, loader, Some([base + ClassExtension])) == []
  {
    OneFileWalk(iface, loader, base);
    OneEntryScan(iface, loader, base);
  }

  /** A directory holding only `base.class` is the visit of `base`. */
  lemma OneFileWalk(iface: JClass, loader: ClassLoader, base: string)
    ensures WalkNodes(iface, loader, "", [FileNode(base + ClassExtension)]) == Visit(iface, loader, base)
  {
    var f := base + ClassExtension;
    assert Lower(f)[|f| - 6..] == ClassExtension;
    assert f[..|f| - 6] == base;
    assert "" + base == base;
    assert [FileNode(f)][..0] == [];
  }

  /** A jar holding only `base.class` contributes the capability type exactly when `base` matches. */
  lemma OneEntryScan(iface: JClass, loader: ClassLoader, base: string)
    requires Separator !in base
    ensures ScanArchive(iface, loader, Some([base + ClassExtension])) ==
      if Examine(iface, loader, base) == Match then [iface] else []
  {
    var f := base + ClassExtension;
    assert Lower(f)[|f| - 6..] == ClassExtension;
    assert f[..|f| - 6] == base;
    DottedKeeps(base);
    assert [f][..0] == [];
  }

  // ---------------------------------------------------------------------------
  // The locator
  // ---------------------------------------------------------------------------

  class ClassLocator {
    var interfaceClass: JClass
    var classloader: ClassLoader
    var list: seq<JClass>

    constructor ()
      ensures list == []
    {
      list := [];
    }

    /** `findInDirectory`: the listing of one directory under package prefix
        `name`; a throwable that escapes is returned. */
    method FindInDirectory(name: string, files: seq<Node>) returns (thrown: Option<ScanError>)
      modifies this
      ensures interfaceClass == old(interfaceClass) && classloader == old(classloader)
      ensures var o := WalkNodes(interfaceClass, classloader, name, files);
        list == old(list) + o.found && thrown == o.error
      decreases files
    {
      ghost var iface, loader, start := interfaceClass, classloader, list;
      var i := 0;
      while i < |files|
        invariant 0 <= i <= |files|
        invariant interfaceClass == iface && classloader == loader
        invariant WalkNodes(iface, loader, name, files[..i]).error.None?
        invariant list == start + WalkNodes(iface, loader, name, files[..i]).found
      {
        ghost var before := WalkNodes(iface, loader, name, files[..i]);
        ghost var step := WalkNode(iface, loader, name, files[i]);
        WalkNodesStep(iface, loader, name, files, i);
        thrown := FindInNode(name, files[i]);
        if thrown.Some? {
          WalkStops(iface, loader, name, files, i + 1);
          return;
        }
        assert list == start + (before.found + step.found);
        i := i + 1;
      }
      assert files[..i] == files;
      thrown := None;
    }

    method FindInNode(name: string, file: Node) returns (thrown: Option<ScanError>)
      modifies this
      ensures interfaceClass == old(interfaceClass) && classloader == old(classloader)
      ensures var o := WalkNode(interfaceClass, classloader, name, file);
        list == old(list) + o.found && thrown == o.error
      decreases file
    {
      thrown := None;
      match file {
        case FileNode(fileName) =>
          if IsClassFile(fileName) {
            var cn := name + fileName[..|fileName| - 6];
            var outcome := classloader.Load(cn);
            match outcome {
              case Loaded(cls) =>
                if Assignable(interfaceClass, cls) {
                  if Assignable(cls, interfaceClass) {
                    list := list + [interfaceClass];
                  } else {
                    thrown := Some(ClassCast(cn));
                  }
                }
              case ClassNotFound =>
              case NoClassDefFound =>
              case InitializerError(headless) =>
                if !headless {
                  thrown := Some(InitializerFailed(cn));
                }
              case OtherError =>
                thrown := Some(LinkageFailed(cn));
            }
          }
        case DirNode(dirName, children) =>
          thrown := FindInDirectory(name + dirName + ".", children);
        case OtherNode(_) =>
      }
    }

    /** `findInArchive`: every throwable is swallowed, an unreadable archive skipped. */
    method FindInArchive(archive: Option<seq<string>>)
      modifies this
      ensures interfaceClass == old(interfaceClass) && classloader == old(classloader)
      ensures list == old(list) + ScanArchive(interfaceClass, classloader, archive)
    {
      if archive.None? {
        return;
      }
      var entries := archive.value;
      ghost var iface, loader, start := interfaceClass, classloader, list;
      var i := 0;
      while i < |entries|
        invariant 0 <= i <= |entries|
        invariant interfaceClass == iface && classloader == loader
        invariant list == start + ScanEntries(iface, loader, entries[..i])
      {
        ScanEntriesStep(iface, loader, entries, i);
        FindInEntry(entries[i]);
        i := i + 1;
      }
      assert entries[..i] == entries;
    }

    /** One archive entry: a class file is loaded and kept if it is the capability type. */
    method FindInEntry(entryName: string)
      modifies this
      ensures interfaceClass == old(interfaceClass) && classloader == old(classloader)
      ensures list == old(list) + ArchiveEntry(interfaceClass, classloader, entryName)
    {
      if IsClassFile(entryName) {
        var cn := Dotted(entryName[..|entryName| - 6]);
        var outcome := classloader.Load(cn);
        if outcome.Loaded? && Assignable(interfaceClass, outcome.cls) && Assignable(outcome.cls, interfaceClass) {
          list := list + [interfaceClass];
        }
      }
    }

    /** The body of the classpath loop for one token: a directory is walked, a
        file whose name ends in `.jar` in any case is scanned, anything else ignored. */
    method FindInToken(fs: FileSystem, token: string) returns (thrown: Option<ScanError>)
      modifies this
      ensures interfaceClass == old(interfaceClass) && classloader == old(classloader)
      ensures var o := ScanToken(interfaceClass, classloader, fs, token);
        list == old(list) + o.found && thrown == o.error
    {
      thrown := None;
      if token in fs {
        match fs[token] {
          case Directory(children) =>
            thrown := FindInDirectory("", children);
          case RegularFile(archive) =>
            var name := Lower(FileName(token));
            if EndsWith(name, JarExtension) {
              FindInArchive(archive);
            }
        }
      }
    }

    /** `findProviderClasses`, with the classpath and the file system as inputs. */
    method FindProviderClasses(interfaceClass: JClass, classloader: ClassLoader, fs: FileSystem, classpath: string)
      returns (r: Result<seq<JClass>, ScanError>)
      modifies this
      ensures this.interfaceClass == interfaceClass && this.classloader == classloader
      ensures var o := ScanTokens(interfaceClass, classloader, fs, Tokens(classpath, PathSeparator));
        && list == old(list) + o.found
        && r == (if o.error.Some? then Err(o.error.value) else Ok(list))
    {
      this.interfaceClass := interfaceClass;
      this.classloader := classloader;
      var thrown := FindInTokens(fs, Tokens(classpath, PathSeparator));
      if thrown.Some? {
        return Err(thrown.value);
      }
      return Ok(list);
    }

    /** The loop of `findProviderClasses` over the classpath tokens, in order,
        ending at the first throwable that escapes. */
    method FindInTokens(fs: FileSystem, tokens: seq<string>) returns (thrown: Option<ScanError>)
      modifies this
      ensures interfaceClass == old(interfaceClass) && classloader == old(classloader)
      ensures var o := ScanTokens(interfaceClass, classloader, fs, tokens);
        list == old(list) + o.found && thrown == o.error
    {
      ghost var iface, loader, start := interfaceClass, classloader, list;
      var i := 0;
      while i < |tokens|
        invariant 0 <= i <= |tokens|
        invariant interfaceClass == iface && classloader == loader
        invariant ScanTokens(iface, loader, fs, tokens[..i]).error.None?
        invariant list == start + ScanTokens(iface, loader, fs, tokens[..i]).found
      {
        ghost var before := ScanTokens(iface, loader, fs, tokens[..i]);
        ghost var step := ScanToken(iface, loader, fs, tokens[i]);
        ScanTokensStep(iface, loader, fs, tokens, i);
        thrown := FindInToken(fs, tokens[i]);
        if thrown.Some? {
          ScanTokensStop(iface, loader, fs, tokens, i + 1);
          return;
        }
        assert list == start + (before.found + step.found);
        i := i + 1;
      }
      assert tokens[..i] == tokens;
      thrown := None;
    }
  }

  lemma ScanTokensStep(iface: JClass, loader: ClassLoader, fs: FileSystem, ts: seq<string>, i: nat)
    requires i < |ts|
    ensures ScanTokens(iface, loader, fs, ts[..i + 1]) == Then(ScanTokens(iface, loader, fs, ts[..i]), ScanToken(iface, loader, fs, ts[i]))
  {
    assert ts[..i + 1][..i] == ts[..i];
  }

  lemma {:induction false} ScanTokensStop(iface: JClass, loader: ClassLoader, fs: FileSystem, ts: seq<string>, j: nat)
    requires j <= |ts|
    requires ScanTokens(iface, loader, fs, ts[..j]).error.Some?
    ensures ScanTokens(iface, loader, fs, ts) == ScanTokens(iface, loader, fs, ts[..j])
    decreases |ts| - j
  {
    if j < |ts| {
      assert ts[..j + 1][..j] == ts[..j];
      ScanTokensStop(iface, loader, fs, ts, j + 1);
    } else {
      assert ts[..j] == ts;
    }
  }

  /** `searchProviderClasses`: a fresh locator's search. */
  method SearchProviderClasses(interfaceClass: JClass, classloader: ClassLoader, fs: FileSystem, classpath: string)
    returns (r: Result<seq<JClass>, ScanError>)
    ensures r == Search(interfaceClass, classloader, fs, classpath)
  {
    var locator := new ClassLocator();
    r := locator.FindProviderClasses(interfaceClass, classloader, fs, classpath);
    ghost var o := ScanTokens(interfaceClass, classloader, fs, Tokens(classpath, PathSeparator));
    assert locator.list == [] + o.found == o.found;
  }
}
