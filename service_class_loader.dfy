/**
 * A service-provider loader that, unlike `java.util.ServiceLoader`, hands out
 * provider classes without instantiating them.
 *
 * Configuration resources follow the provider-configuration file format of the
 * JAR File Specification ("Service Provider" section): one fully qualified
 * class name per line, `#` starts a comment, surrounding blanks are ignored.
 * Resources are abstracted as the lines a reader would return; class loading as
 * a table from names to load outcomes (module JavaTypes).
 */
module ServiceClassLoading {
  import opened Wrappers
  import opened JavaTypes
  import opened JavaChars

  /** Directory under which configuration resources are looked up. */
  const Prefix: string := "META-INF/services/"

  /** One configuration resource as the loader's resource enumeration yields it.
      `lines` are the lines read before end of input, or before an I/O error
      when `readFails`; `opens` is false when the URL cannot be opened;
      `closeFails` when closing the reader throws. */
  datatype Resource = Resource(url: string, opens: bool, lines: seq<string>, readFails: bool, closeFails: bool)

  /** What `getResources(name)` yields: the resources in loader order, or an I/O error. */
  datatype ResourceLookup = Found(configs: seq<Resource>) | LookupFails

  /** The errors the loader raises. All but the last two are ServiceConfigurationErrors. */
  datatype ConfigError =
    | IllegalSyntax(url: string, line: nat)                     // "Illegal configuration-file syntax"
    | IllegalProviderName(url: string, line: nat, name: string) // "Illegal provider-class name: ..."
    | ReadFailure(url: string)                                  // "Error reading configuration file"
    | CloseFailure(url: string)                                 // "Error closing configuration file"
    | LocateFailure                                             // "Error locating configuration files"
    | ProviderNotFound(name: string)                            // "Provider ... not found"
    | ProviderNotSubtype(name: string)                          // "Provider ... not a subtype"
    | LoadFailure(name: string, outcome: LoadOutcome)           // any other error of Class.forName, propagated as is
    | NoSuchElement                                             // NoSuchElementException

  // ---------------------------------------------------------------------------
  // One line of a configuration file
  // ---------------------------------------------------------------------------

  /** The part of a line before its first `#`. */
  function StripComment(ln: string): (r: string)
    ensures |r| <= |ln| && r == ln[..|r|]
    ensures '#' !in r
    ensures |r| < |ln| ==> ln[|r|] == '#'
  {
    if ln == [] || ln[0] == '#' then [] else [ln[0]] + StripComment(ln[1..])
  }

  predicate HasBlank(t: string)
  {
    ' ' in t || '\t' in t
  }

  /** A Java identifier start followed by identifier parts and dots. */
  predicate ValidProviderName(t: string)
  {
    && |t| > 0
    && IsIdentifierStart(t[0])
    && forall k :: 1 <= k < |t| ==> IsIdentifierPart(t[k]) || t[k] == '.'
  }

  /** What one line contributes. */
  datatype LineOutcome = Blank | Name(name: string) | SyntaxFault | NameFault(name: string)

  /** The verdict on one line: comment stripped, then trimmed, then checked. */
  function ClassifyLine(ln: string): LineOutcome
  {
    var t := Trim(StripComment(ln));
    if t == [] then Blank
    else if HasBlank(t) then SyntaxFault
    else if !ValidProviderName(t) then NameFault(t)
    else Name(t)
  }

  /** The error a faulty line raises, tagged with the resource and the line number. */
  function LineError(url: string, line: nat, o: LineOutcome): ConfigError
    requires o.SyntaxFault? || o.NameFault?
  {
    if o.SyntaxFault? then IllegalSyntax(url, line) else IllegalProviderName(url, line, o.name)
  }

  /** A name joins the list only if neither the registry nor the list has it yet. */
  function Admit(n: string, registry: set<string>, names: seq<string>): seq<string>
  {
    if n in registry || n in names then names else names + [n]
  }

  predicate Distinct(xs: seq<string>)
  {
    forall i, j :: 0 <= i < j < |xs| ==> xs[i] != xs[j]
  }

  // ---------------------------------------------------------------------------
  // A whole configuration file
  // ---------------------------------------------------------------------------

  /** The verdict on every line, in order. */
  function Outcomes(lines: seq<string>): (os: seq<LineOutcome>)
    ensures |os| == |lines|
    ensures forall k :: 0 <= k < |lines| ==> os[k] == ClassifyLine(lines[k])
  {
    Map(ClassifyLine, lines)
  }

  /** Each line is judged on its own: the verdicts of two runs of lines, one after the other,
      are the verdicts of each. */
  lemma OutcomesAppend(a: seq<string>, b: seq<string>)
    ensures Outcomes(a + b) == Outcomes(a) + Outcomes(b)
  {
    MapAppend(ClassifyLine, a, b);
  }

  /** `f` applied to every element, in order. */
  function Map<T, U>(f: T -> U, xs: seq<T>): (ys: seq<U>)
    ensures |ys| == |xs|
    ensures forall k :: 0 <= k < |xs| ==> ys[k] == f(xs[k])
  {
    seq(|xs|, k requires 0 <= k < |xs| => f(xs[k]))
  }

  lemma MapAppend<T, U>(f: T -> U, a: seq<T>, b: seq<T>)
    ensures Map(f, a + b) == Map(f, a) + Map(f, b)
  {
    var l, r := Map(f, a + b), Map(f, a) + Map(f, b);
    forall k | 0 <= k < |a| ensures l[k] == r[k] {
      assert (a + b)[k] == a[k];
    }
    forall k | |a| <= k < |l| ensures l[k] == r[k] {
      assert (a + b)[k] == b[k - |a|];
    }
  }

  /** Parsing from the line at index `i` (line number `i + 1`) with `names` collected so far. */
  function ParseFrom(url: string, os: seq<LineOutcome>, i: nat, registry: set<string>, names: seq<string>): Result<seq<string>, ConfigError>
    requires i <= |os|
    decreases |os| - i
  {
    if i == |os| then Ok(names)
    else
      match os[i]
      case Blank => ParseFrom(url, os, i + 1, registry, names)
      case Name(t) => ParseFrom(url, os, i + 1, registry, Admit(t, registry, names))
      case _ => Err(LineError(url, i + 1, os[i]))
  }

  /** The lines of a readable resource parsed; an I/O error after the last of them fails the read. */
  function ReadAll(res: Resource, registry: set<string>): Result<seq<string>, ConfigError>
  {
    var body := ParseFrom(res.url, Outcomes(res.lines), 0, registry, []);
    if body.Ok? && res.readFails then Err(ReadFailure(res.url)) else body
  }

  /** The pending names of one resource, or the error parsing it raises. A failure
      to close the reader replaces whatever the parse produced. */
  function ParseResource(res: Resource, registry: set<string>): Result<seq<string>, ConfigError>
  {
    if !res.opens then Err(ReadFailure(res.url))
    else if res.closeFails then Err(CloseFailure(res.url))
    else ReadAll(res, registry)
  }

  /** `n` is the name some line of the file declares. */
  predicate Declared(lines: seq<string>, n: string)
  {
    Name(n) in Outcomes(lines)
  }

  /** Every name a line yields is a legal provider-class name. */
  predicate NamesValid(os: seq<LineOutcome>)
  {
    forall k :: 0 <= k < |os| && os[k].Name? ==> ValidProviderName(os[k].name)
  }

  lemma OutcomesNamesValid(lines: seq<string>)
    ensures NamesValid(Outcomes(lines))
  {
  }

  lemma AdmitKeeps(n: string, registry: set<string>, names: seq<string>)
    requires Distinct(names)
    requires forall m :: m in names ==> m !in registry && ValidProviderName(m)
    requires ValidProviderName(n)
    ensures var names' := Admit(n, registry, names);
      && Distinct(names')
      && (forall m :: m in names' ==> m !in registry && ValidProviderName(m))
  {
    if n !in registry && n !in names {
      var names' := names + [n];
      forall i, j | 0 <= i < j < |names'| ensures names'[i] != names'[j] {
        if j == |names| {
          assert names'[i] in names;
        }
      }
    }
  }

  lemma {:induction false} ParseFromSound(url: string, os: seq<LineOutcome>, i: nat, registry: set<string>, names: seq<string>)
    requires i <= |os| && NamesValid(os)
    requires Distinct(names)
    requires forall n :: n in names ==> n !in registry && ValidProviderName(n)
    requires ParseFrom(url, os, i, registry, names).Ok?
    ensures var r := ParseFrom(url, os, i, registry, names).value;
      && Distinct(r)
      && (forall n :: n in r ==> n !in registry && ValidProviderName(n))
    decreases |os| - i
  {
    if i < |os| {
      if os[i].Name? {
        AdmitKeeps(os[i].name, registry, names);
        ParseFromSound(url, os, i + 1, registry, Admit(os[i].name, registry, names));
      } else {
        ParseFromSound(url, os, i + 1, registry, names);
      }
    }
  }

  lemma {:induction false} ParseFromMembers(url: string, os: seq<LineOutcome>, i: nat, registry: set<string>, names: seq<string>, n: string)
    requires i <= |os|
    requires ParseFrom(url, os, i, registry, names).Ok?
    ensures n in ParseFrom(url, os, i, registry, names).value <==> n in names || (n !in registry && Name(n) in os[i..])
    decreases |os| - i
  {
    if i < |os| {
      var names' := if os[i].Name? then Admit(os[i].name, registry, names) else names;
      ParseFromMembers(url, os, i + 1, registry, names', n);
      assert os[i..] == [os[i]] + os[i + 1..];
    }
  }

  /** The names parsed from a resource are legal, duplicate-free, disjoint from
      the registry, and are exactly the declared names the registry lacks. */
  lemma ParsedNames(res: Resource, registry: set<string>)
    requires ParseResource(res, registry).Ok?
    ensures var r := ParseResource(res, registry).value;
      && Distinct(r)
      && (forall n :: n in r ==> ValidProviderName(n))
      && (forall n :: n in r <==> n !in registry && Declared(res.lines, n))
  {
    var os := Outcomes(res.lines);
    OutcomesNamesValid(res.lines);
    ParseFromSound(res.url, os, 0, registry, []);
    forall n ensures n in ParseResource(res, registry).value <==> n !in registry && Declared(res.lines, n) {
      ParseFromMembers(res.url, os, 0, registry, [], n);
      assert os[0..] == os;
    }
  }

  lemma {:induction false} FaultFrom(url: string, os: seq<LineOutcome>, i: nat, k: nat, registry: set<string>, names: seq<string>)
    requires i <= k < |os|
    requires forall j :: i <= j < k ==> os[j].Blank? || os[j].Name?
    requires os[k].SyntaxFault? || os[k].NameFault?
    ensures ParseFrom(url, os, i, registry, names) == Err(LineError(url, k + 1, os[k]))
    decreases k - i
  {
    if i < k {
      FaultFrom(url, os, i + 1, k, registry, if os[i].Name? then Admit(os[i].name, registry, names) else names);
    }
  }

  /** The first faulty line of a readable resource fails the parse, tagged with
      the resource and its 1-based line number, whatever the later lines hold. */
  lemma FirstFaultReported(res: Resource, k: nat, registry: set<string>)
    requires res.opens && !res.closeFails
    requires k < |res.lines|
    requires forall j :: 0 <= j < k ==> ClassifyLine(res.lines[j]).Blank? || ClassifyLine(res.lines[j]).Name?
    requires ClassifyLine(res.lines[k]).SyntaxFault? || ClassifyLine(res.lines[k]).NameFault?
    ensures ParseResource(res, registry) == Err(LineError(res.url, k + 1, ClassifyLine(res.lines[k])))
  {
    FaultFrom(res.url, Outcomes(res.lines), 0, k, registry, []);
  }

  /** A line that is blank once its comment is gone contributes nothing, whatever the comment says. */
  lemma CommentedBlankLine(pad: string, comment: string)
    requires forall k :: 0 <= k < |pad| ==> pad[k] <= ' '
    ensures ClassifyLine(pad + "#" + comment) == Blank
  {
    var ln := pad + "#" + comment;
    var s := StripComment(ln);
    assert ln[|pad|] == '#';
    assert forall k :: 0 <= k < |s| ==> s[k] == pad[k];
  }

  /** A name with blanks inside fails even when surrounded by blanks and followed by a comment. */
  lemma {:induction false} NoComment(ln: string)
    requires '#' !in ln
    ensures StripComment(ln) == ln
  {
    if ln != [] {
      assert ln[0] != '#';
      assert '#' !in ln[1..];
      NoComment(ln[1..]);
      assert ln == [ln[0]] + ln[1..];
    }
  }

  lemma NoHashInPad(pad: string)
    requires forall k :: 0 <= k < |pad| ==> pad[k] <= ' '
    ensures '#' !in pad
  {
  }

  /** A name with blanks inside fails even when surrounded by blanks and followed by nothing else. */
  lemma InnerBlankIsSyntaxError(pre: string, a: string, b: string, post: string)
    requires forall k :: 0 <= k < |pre| ==> pre[k] <= ' '
    requires forall k :: 0 <= k < |post| ==> post[k] <= ' '
    requires a != [] && b != [] && a[0] > ' ' && b[|b| - 1] > ' '
    requires '#' !in a && '#' !in b
    ensures ClassifyLine(pre + a + " " + b + post) == SyntaxFault
  {
    var t := a + " " + b;
    assert pre + a + " " + b + post == pre + t + post;
    assert '#' !in t;
    PaddedLine(pre, t, post);
    assert t[|a|] == ' ';
  }

  /** Blanks around a text without `#` that starts and ends with a visible character vanish. */
  lemma PaddedLine(pre: string, t: string, post: string)
    requires forall k :: 0 <= k < |pre| ==> pre[k] <= ' '
    requires forall k :: 0 <= k < |post| ==> post[k] <= ' '
    requires t != [] && t[0] > ' ' && t[|t| - 1] > ' ' && '#' !in t
    ensures Trim(StripComment(pre + t + post)) == t
  {
    NoHashInPad(pre);
    NoHashInPad(post);
    NoComment(pre + t + post);
    TrimPadded(pre, t, post);
    TrimKeeps(t);
  }

  // ---------------------------------------------------------------------------
  // The lazy cursor
  // ---------------------------------------------------------------------------

  /** The state of the lazy lookup: the resources not yet parsed (None before the
      enumeration is obtained), the names of the current resource not yet
      staged (None before the first resource), and the staged name. */
  datatype Cursor = Cursor(configs: Option<seq<Resource>>, pending: Option<seq<string>>, nextName: Option<string>)

  const FreshCursor: Cursor := Cursor(None, None, None)

  /** The result of `hasNext` and the cursor it leaves behind. */
  datatype Probe = Probe(result: Result<bool, ConfigError>, cursor: Cursor)

  /** The cursor has nothing left: no staged name, no resource, no pending name. */
  predicate Exhausted(c: Cursor)
  {
    c.nextName.None? && c.configs == Some([]) && (c.pending.None? || c.pending.value == [])
  }

  /** What a cursor promises about its pending names. */
  predicate CursorInv(c: Cursor, registry: set<string>)
  {
    && (c.pending.Some? ==>
         && Distinct(c.pending.value)
         && forall n :: n in c.pending.value ==> n !in registry && ValidProviderName(n))
    && (c.nextName.Some? ==>
         && c.pending.Some?
         && c.nextName.value !in c.pending.value
         && c.nextName.value !in registry
         && ValidProviderName(c.nextName.value))
  }

  /** The `while` loop of `hasNext`: parse resources until one leaves names pending. */
  function Seek(configs: seq<Resource>, pending: Option<seq<string>>, registry: set<string>): (p: Probe)
    ensures p.result == Ok(true) ==> p.cursor.nextName.Some?
    ensures p.result == Ok(false) ==> Exhausted(p.cursor)
    ensures p.result.Err? ==> p.cursor.nextName.None? && p.cursor.configs.Some?
    decreases |configs|
  {
    if pending.Some? && pending.value != [] then
      Probe(Ok(true), Cursor(Some(configs), Some(pending.value[1..]), Some(pending.value[0])))
    else if configs == [] then
      Probe(Ok(false), Cursor(Some([]), pending, None))
    else
      match ParseResource(configs[0], registry)
      case Err(e) => Probe(Err(e), Cursor(Some(configs[1..]), pending, None))
      case Ok(names) => Seek(configs[1..], Some(names), registry)
  }

  /** `LazyIterator.hasNext`. */
  function HasNextSpec(c: Cursor, lookup: ResourceLookup, registry: set<string>): Probe
  {
    if c.nextName.Some? then Probe(Ok(true), c)
    else if c.configs.None? && lookup.LookupFails? then Probe(Err(LocateFailure), c)
    else Seek(if c.configs.Some? then c.configs.value else lookup.configs, c.pending, registry)
  }

  /** `Class.forName` followed by the subtype check of `LazyIterator.next`. */
  function Resolve(name: string, loader: ClassLoader, service: JClass): (r: Result<JClass, ConfigError>)
    ensures r.Ok? <==> loader.Load(name).Loaded? && Assignable(service, loader.Load(name).cls)
    ensures r.Ok? ==> r.value == loader.Load(name).cls
    ensures loader.Load(name).Loaded? && !Assignable(service, loader.Load(name).cls) <==> r == Err(ProviderNotSubtype(name))
    ensures loader.Load(name) == ClassNotFound <==> r == Err(ProviderNotFound(name))
    ensures !loader.Load(name).Loaded? && loader.Load(name) != ClassNotFound <==> r == Err(LoadFailure(name, loader.Load(name)))
  {
    var o := loader.Load(name);
    match o
    case Loaded(k) => if Assignable(service, k) then Ok(k) else Err(ProviderNotSubtype(name))
    case ClassNotFound => Err(ProviderNotFound(name))
    case _ => Err(LoadFailure(name, o))
  }

  /** The result of `next`, the cursor it leaves behind, and the name it registers. */
  datatype Step = Step(result: Result<JClass, ConfigError>, cursor: Cursor, registered: Option<string>)

  /** `LazyIterator.next`. */
  function NextSpec(c: Cursor, lookup: ResourceLookup, registry: set<string>, loader: ClassLoader, service: JClass): Step
  {
    var p := HasNextSpec(c, lookup, registry);
    if p.result.Err? then Step(Err(p.result.error), p.cursor, None)
    else if !p.result.value then Step(Err(NoSuchElement), p.cursor, None)
    else
      var cn := p.cursor.nextName.value;
      var c' := p.cursor.(nextName := None);
      match Resolve(cn, loader, service)
      case Ok(k) => Step(Ok(k), c', Some(cn))
      case Err(e) => Step(Err(e), c', None)
  }

  lemma {:induction false} SeekKeepsInv(configs: seq<Resource>, pending: Option<seq<string>>, registry: set<string>)
    requires CursorInv(Cursor(Some(configs), pending, None), registry)
    ensures CursorInv(Seek(configs, pending, registry).cursor, registry)
    decreases |configs|
  {
    if pending.Some? && pending.value != [] {
      var p := pending.value;
      assert p == [p[0]] + p[1..];
      assert p[0] !in p[1..];
    } else if configs != [] {
      var r := ParseResource(configs[0], registry);
      if r.Ok? {
        ParsedNames(configs[0], registry);
        SeekKeepsInv(configs[1..], Some(r.value), registry);
      }
    }
  }

  /** `hasNext` keeps the pending names legal, duplicate-free and out of the registry. */
  lemma HasNextKeepsInv(c: Cursor, lookup: ResourceLookup, registry: set<string>)
    requires CursorInv(c, registry)
    ensures CursorInv(HasNextSpec(c, lookup, registry).cursor, registry)
  {
    if c.nextName.None? && !(c.configs.None? && lookup.LookupFails?) {
      SeekKeepsInv(if c.configs.Some? then c.configs.value else lookup.configs, c.pending, registry);
    }
  }

  /** Asking again changes nothing: a staged name stays staged, an exhausted cursor stays exhausted. */
  lemma HasNextStable(c: Cursor, lookup: ResourceLookup, registry: set<string>)
    requires HasNextSpec(c, lookup, registry).result.Ok?
    ensures var p := HasNextSpec(c, lookup, registry);
      HasNextSpec(p.cursor, lookup, registry) == p
  {
    var p := HasNextSpec(c, lookup, registry);
    if p.result.value {
      assert p.cursor.nextName.Some?;
    } else {
      assert Exhausted(p.cursor);
    }
  }

  /** `hasNext` answers false exactly when no name is staged and both the
      resource enumeration and the current pending list are used up. */
  lemma HasNextFalseIff(c: Cursor, lookup: ResourceLookup, registry: set<string>)
    ensures HasNextSpec(c, lookup, registry).result == Ok(false) ==> Exhausted(HasNextSpec(c, lookup, registry).cursor)
    ensures Exhausted(c) ==> HasNextSpec(c, lookup, registry) == Probe(Ok(false), c)
  {
  }

  /** `next` on an exhausted cursor throws NoSuchElementException and changes nothing. */
  lemma NextWhenExhausted(c: Cursor, lookup: ResourceLookup, registry: set<string>, loader: ClassLoader, service: JClass)
    requires Exhausted(c)
    ensures NextSpec(c, lookup, registry, loader, service) == Step(Err(NoSuchElement), c, None)
  {
  }

  /** A successful `next` registers a name the registry lacked, as a subtype of the
      service; afterwards the cursor's promises hold for the enlarged registry. */
  lemma NextKeepsInv(c: Cursor, lookup: ResourceLookup, registry: set<string>, loader: ClassLoader, service: JClass)
    requires CursorInv(c, registry)
    ensures var s := NextSpec(c, lookup, registry, loader, service);
      && s.cursor.nextName.None?
      && (s.registered.Some? <==> s.result.Ok?)
      && (s.registered.Some? ==>
            && s.registered.value !in registry
            && Assignable(service, s.result.value)
            && loader.Load(s.registered.value) == Loaded(s.result.value)
            && CursorInv(s.cursor, registry + {s.registered.value}))
      && (s.registered.None? ==> CursorInv(s.cursor, registry))
  {
    HasNextKeepsInv(c, lookup, registry);
  }

  // ---------------------------------------------------------------------------
  // The loader and its iterators
  // ---------------------------------------------------------------------------

  /** The classes of a LinkedHashMap whose keys, in insertion order, are `names`. */
  function InOrder(names: seq<string>, classes: map<string, JClass>): (s: seq<JClass>)
    requires forall n :: n in names ==> n in classes
    ensures |s| == |names|
  {
    if names == [] then []
    else InOrder(names[..|names| - 1], classes) + [classes[names[|names| - 1]]]
  }

  /** `put` of a new key appends its class at the end of the iteration order,
      and leaves the classes of the earlier keys where they were. */
  lemma {:induction false} InOrderAppend(names: seq<string>, classes: map<string, JClass>, cn: string, c: JClass)
    requires forall n :: n in names ==> n in classes
    requires cn !in names
    ensures InOrder(names + [cn], classes[cn := c]) == InOrder(names, classes) + [c]
  {
    assert (names + [cn])[..|names|] == names;
    InOrderUpdate(names, classes, cn, c);
  }

  /** Updating a key outside `names` changes nothing of their classes. */
  lemma {:induction false} InOrderUpdate(names: seq<string>, classes: map<string, JClass>, cn: string, c: JClass)
    requires forall n :: n in names ==> n in classes
    requires cn !in names
    ensures InOrder(names, classes[cn := c]) == InOrder(names, classes)
    decreases |names|
  {
    if names != [] {
      var init := names[..|names| - 1];
      assert forall n :: n in init ==> n in names;
      InOrderUpdate(init, classes, cn, c);
    }
  }

  /** A loader session: the provider registry (a LinkedHashMap, here its key
      order and its table) and the current lazy cursor. */
  /** The registry's key order lists each key once, and every class is a subtype of the service. */
  ghost predicate RegistryInv(names: seq<string>, classes: map<string, JClass>, service: JClass)
  {
    && Distinct(names)
    && (forall n :: n in classes <==> n in names)
    && (forall n :: n in classes ==> Assignable(service, classes[n]))
  }

  class ServiceClassLoader {
    const service: JClass
    const loader: ClassLoader
    /** The configuration resources the class loader can enumerate, by resource name. */
    const resources: map<string, ResourceLookup>
    var providerNames: seq<string>
    var providerClasses: map<string, JClass>
    var lookupIterator: LazyIterator?

    ghost predicate Valid()
      reads this, lookupIterator
    {
      && lookupIterator != null
      && lookupIterator.owner == this
      && RegistryInv(providerNames, providerClasses, service)
      && CursorInv(lookupIterator.State(), providerClasses.Keys)
    }

    /** `getResources(PREFIX + service name)`; a name with no resources enumerates nothing. */
    function Lookup(): (l: ResourceLookup)
      ensures Prefix + service.name in resources ==> l == resources[Prefix + service.name]
      ensures Prefix + service.name !in resources ==> l == Found([])
    {
      var fullName := Prefix + service.name;
      if fullName in resources then resources[fullName] else Found([])
    }

    /** The registered classes, in insertion order. */
    function Registered(): (s: seq<JClass>)
      reads this
      requires forall n :: n in providerNames ==> n in providerClasses
      ensures |s| == |providerNames|
    {
      InOrder(providerNames, providerClasses)
    }

    /** `providerClasses.put`: a new key joins the end of the key order, an old one keeps its place. */
    method Put(cn: string, c: JClass)
      requires RegistryInv(providerNames, providerClasses, service) && Assignable(service, c)
      modifies this
      ensures RegistryInv(providerNames, providerClasses, service)
      ensures providerClasses == old(providerClasses)[cn := c]
      ensures providerNames == if cn in old(providerClasses) then old(providerNames) else old(providerNames) + [cn]
      ensures lookupIterator == old(lookupIterator)
      ensures cn !in old(providerClasses) ==> Registered() == old(Registered()) + [c]
    {
      if cn !in providerClasses {
        InOrderAppend(providerNames, providerClasses, cn, c);
        providerNames := providerNames + [cn];
      }
      assert forall n :: n in providerNames ==> n == cn || n in old(providerNames);
      providerClasses := providerClasses[cn := c];
    }

    /** The constructor: binds service and loader, then reloads. */
    constructor (service: JClass, loader: ClassLoader, resources: map<string, ResourceLookup>)
      ensures Valid() && fresh(lookupIterator)
      ensures this.service == service && this.loader == loader && this.resources == resources
      ensures providerNames == [] && providerClasses == map[]
      ensures lookupIterator.State() == FreshCursor
    {
      this.service := service;
      this.loader := loader;
      this.resources := resources;
      providerNames := [];
      providerClasses := map[];
      lookupIterator := null;
      new;
      Reload();
    }

    /** Clears the registry and installs a fresh cursor. */
    method Reload()
      modifies this
      ensures Valid() && fresh(lookupIterator)
      ensures providerNames == [] && providerClasses == map[]
      ensures lookupIterator.State() == FreshCursor
    {
      providerNames := [];
      providerClasses := map[];
      lookupIterator := new LazyIterator(this);
    }

    /** `parseLine`: one `readLine` result (None at end of input) with line number `lc`. */
    method ParseLine(url: string, ln: Option<string>, lc: nat, names: seq<string>) returns (r: Result<int, ConfigError>, names': seq<string>)
      ensures ln.None? ==> r == Ok(-1) && names' == names
      ensures ln.Some? ==>
        var o := ClassifyLine(ln.value);
        && ((o.SyntaxFault? || o.NameFault?) ==> r == Err(LineError(url, lc, o)))
        && (o.Blank? ==> r == Ok(lc + 1) && names' == names)
        && (o.Name? ==> r == Ok(lc + 1) && names' == Admit(o.name, providerClasses.Keys, names))
    {
      names' := names;
      if ln.None? {
        return Ok(-1), names';
      }
      var t := Trim(StripComment(ln.value));
      var n := |t|;
      if n != 0 {
        if ' ' in t || '\t' in t {
          return Err(IllegalSyntax(url, lc)), names';
        }
        var cp := t[0];
        if !IsIdentifierStart(cp) {
          return Err(IllegalProviderName(url, lc, t)), names';
        }
        var i := 1;
        while i < n
          invariant 1 <= i <= n
          invariant forall k :: 1 <= k < i ==> IsIdentifierPart(t[k]) || t[k] == '.'
        {
          cp := t[i];
          if !IsIdentifierPart(cp) && cp != '.' {
            return Err(IllegalProviderName(url, lc, t)), names';
          }
          i := i + 1;
        }
        if t !in providerClasses && t !in names {
          names' := names + [t];
        }
      }
      return Ok(lc + 1), names';
    }

    /** The read loop of `parse`: lines numbered from 1 until `parseLine` answers -1. */
    method ReadLines(res: Resource) returns (r: Result<seq<string>, ConfigError>)
      ensures r == ReadAll(res, providerClasses.Keys)
    {
      ghost var registry := providerClasses.Keys;
      ghost var os := Outcomes(res.lines);
      ghost var target := ParseFrom(res.url, os, 0, registry, []);
      var names: seq<string> := [];
      var lc: int := 1;
      while true
        invariant 1 <= lc <= |res.lines| + 1
        invariant ParseFrom(res.url, os, lc - 1, registry, names) == target
        decreases |res.lines| + 1 - lc
      {
        if lc - 1 == |res.lines| && res.readFails {
          return Err(ReadFailure(res.url));
        }
        var ln := if lc - 1 < |res.lines| then Some(res.lines[lc - 1]) else None;
        var step, names' := ParseLine(res.url, ln, lc, names);
        ghost var o := if ln.Some? then os[lc - 1] else Blank;
        assert ln.Some? ==> o == ClassifyLine(ln.value);
        if step.Err? {
          return Err(step.error);
        }
        names := names';
        if step.value < 0 {
          return Ok(names);
        }
        lc := step.value;
      }
    }

    /** `parse`: opens the resource, reads it, and closes it; a failure to close wins. */
    method Parse(res: Resource) returns (r: Result<seq<string>, ConfigError>)
      ensures r == ParseResource(res, providerClasses.Keys)
    {
      if !res.opens {
        return Err(ReadFailure(res.url));
      }
      r := ReadLines(res);
      if res.closeFails {
        r := Err(CloseFailure(res.url));
      }
    }

    /** `iterator`: a view that yields the registered classes first, then draws from the shared cursor. */
    method Iterator() returns (it: ProviderIterator)
      requires Valid()
      ensures fresh(it)
      ensures it.owner == this && it.known == Registered() && it.index == 0
    {
      it := new ProviderIterator(this, Registered());
    }
  }

  /** The lazy lookup shared by every iterator of one loader session. */
  class LazyIterator {
    const owner: ServiceClassLoader
    var configs: Option<seq<Resource>>
    var pending: Option<seq<string>>
    var nextName: Option<string>

    constructor (owner: ServiceClassLoader)
      ensures this.owner == owner && State() == FreshCursor
    {
      this.owner := owner;
      configs, pending, nextName := None, None, None;
    }

    function State(): Cursor
      reads this
    {
      Cursor(configs, pending, nextName)
    }

    method HasNext() returns (r: Result<bool, ConfigError>)
      requires owner.Valid() && owner.lookupIterator == this
      modifies this
      ensures owner.Valid()
      ensures Probe(r, State()) == HasNextSpec(old(State()), owner.Lookup(), owner.providerClasses.Keys)
    {
      ghost var registry := owner.providerClasses.Keys;
      HasNextKeepsInv(State(), owner.Lookup(), registry);
      if nextName.Some? {
        return Ok(true);
      }
      if configs.None? {
        var lookup := owner.Lookup();
        if lookup.LookupFails? {
          return Err(LocateFailure);
        }
        configs := Some(lookup.configs);
      }
      ghost var target := Seek(configs.value, pending, registry);
      while pending.None? || pending.value == []
        invariant configs.Some? && nextName.None?
        invariant Seek(configs.value, pending, registry) == target
        decreases |configs.value|
      {
        if configs.value == [] {
          return Ok(false);
        }
        var res := configs.value[0];
        configs := Some(configs.value[1..]);
        var names := owner.Parse(res);
        if names.Err? {
          return Err(names.error);
        }
        pending := Some(names.value);
      }
      nextName := Some(pending.value[0]);
      pending := Some(pending.value[1..]);
      return Ok(true);
    }

    method Next() returns (r: Result<JClass, ConfigError>)
      requires owner.Valid() && owner.lookupIterator == this
      modifies this, owner
      ensures owner.Valid() && owner.lookupIterator == this
      ensures var s := NextSpec(old(State()), owner.Lookup(), old(owner.providerClasses.Keys), owner.loader, owner.service);
        && r == s.result && State() == s.cursor
        && (s.registered.Some? ==>
              && owner.providerNames == old(owner.providerNames) + [s.registered.value]
              && owner.providerClasses == old(owner.providerClasses)[s.registered.value := r.value]
              && owner.Registered() == old(owner.Registered()) + [r.value])
        && (s.registered.None? ==>
              owner.providerNames == old(owner.providerNames) && owner.providerClasses == old(owner.providerClasses))
    {
      ghost var c0, registry := State(), owner.providerClasses.Keys;
      ghost var registered := owner.Registered();
      var h := HasNext();
      if h.Err? {
        return Err(h.error);
      }
      if !h.value {
        return Err(NoSuchElement);
      }
      var cn := nextName.value;
      nextName := None;
      // Class.forName, then the subtype check; asSubclass cannot fail once the
      // class is assignable to the service
      var resolved := Resolve(cn, owner.loader, owner.service);
      if resolved.Err? {
        return Err(resolved.error);
      }
      var c := resolved.value;
      NextKeepsInv(c0, owner.Lookup(), registry, owner.loader, owner.service);
      owner.Put(cn, c);
      assert owner.Registered() == registered + [c];
      return Ok(c);
    }
  }

  /** An iterator of a loader: the registry's classes as they stood when it was
      made, then whatever the shared cursor resolves. */
  class ProviderIterator {
    const owner: ServiceClassLoader
    const known: seq<JClass>
    var index: nat

    constructor (owner: ServiceClassLoader, known: seq<JClass>)
      ensures this.owner == owner && this.known == known && index == 0
    {
      this.owner := owner;
      this.known := known;
      index := 0;
    }

    method HasNext() returns (r: Result<bool, ConfigError>)
      requires owner.Valid()
      modifies owner.lookupIterator
      ensures owner.Valid() && owner.lookupIterator == old(owner.lookupIterator)
      ensures index < |known| ==> r == Ok(true) && owner.lookupIterator.State() == old(owner.lookupIterator.State())
      ensures index >= |known| ==>
        Probe(r, owner.lookupIterator.State()) == HasNextSpec(old(owner.lookupIterator.State()), owner.Lookup(), owner.providerClasses.Keys)
    {
      if index < |known| {
        return Ok(true);
      }
      r := owner.lookupIterator.HasNext();
    }

    method Next() returns (r: Result<JClass, ConfigError>)
      requires owner.Valid()
      modifies this, owner, owner.lookupIterator
      ensures owner.Valid() && owner.lookupIterator == old(owner.lookupIterator)
      ensures old(index) < |known| ==>
        && r == Ok(known[old(index)]) && index == old(index) + 1
        && owner.lookupIterator.State() == old(owner.lookupIterator.State())
        && owner.providerNames == old(owner.providerNames) && owner.providerClasses == old(owner.providerClasses)
      ensures old(index) >= |known| ==>
        var s := NextSpec(old(owner.lookupIterator.State()), owner.Lookup(), old(owner.providerClasses.Keys), owner.loader, owner.service);
        && r == s.result && owner.lookupIterator.State() == s.cursor && index == old(index)
        && (s.registered.Some? ==>
              && owner.providerNames == old(owner.providerNames) + [s.registered.value]
              && owner.providerClasses == old(owner.providerClasses)[s.registered.value := r.value]
              && owner.Registered() == old(owner.Registered()) + [r.value])
        && (s.registered.None? ==>
              owner.providerNames == old(owner.providerNames) && owner.providerClasses == old(owner.providerClasses))
    {
      if index < |known| {
        r := Ok(known[index]);
        index := index + 1;
        return;
      }
      r := owner.lookupIterator.Next();
    }
  }

  // ---------------------------------------------------------------------------
  // Serving a declared provider
  // ---------------------------------------------------------------------------

  lemma ValidNameChars(t: string)
    requires ValidProviderName(t)
    ensures '#' !in t && !HasBlank(t) && t[0] > ' '
  {
    forall k | 0 <= k < |t| ensures t[k] != '#' && t[k] != ' ' && t[k] != '\t' {
      if k > 0 {
        assert IsIdentifierPart(t[k]) || t[k] == '.';
      }
    }
  }

  /** A legal name, padded with blanks, is read back as itself (unless it ends in
      a control character that `trim` removes). */
  lemma NameLineAccepted(pre: string, t: string, post: string)
    requires forall k :: 0 <= k < |pre| ==> pre[k] <= ' '
    requires forall k :: 0 <= k < |post| ==> post[k] <= ' '
    requires ValidProviderName(t) && t[|t| - 1] > ' '
    ensures ClassifyLine(pre + t + post) == Name(t)
  {
    ValidNameChars(t);
    PaddedLine(pre, t, post);
  }

  lemma OneLineFile(res: Resource, registry: set<string>)
    requires res.opens && !res.closeFails && !res.readFails
    requires |res.lines| == 1 && ClassifyLine(res.lines[0]).Name?
    ensures var n := ClassifyLine(res.lines[0]).name;
      ParseResource(res, registry) == Ok(if n in registry then [] else [n])
  {
    var os := Outcomes(res.lines);
    var n := ClassifyLine(res.lines[0]).name;
    assert os[0] == Name(n);
    assert ParseFrom(res.url, os, 0, registry, []) == ParseFrom(res.url, os, 1, registry, Admit(n, registry, []));
    assert ParseFrom(res.url, os, 1, registry, Admit(n, registry, [])) == Ok(Admit(n, registry, []));
    assert [] + [n] == [n];
  }

  lemma SingleProvider(res: Resource, n: string, loader: ClassLoader, service: JClass, impl: JClass)
    requires ParseResource(res, {}) == Ok([n])
    requires loader.Load(n) == Loaded(impl) && Assignable(service, impl)
    ensures var c := Cursor(Some([]), Some([]), Some(n));
      && HasNextSpec(FreshCursor, Found([res]), {}) == Probe(Ok(true), c)
      && NextSpec(c, Found([res]), {}, loader, service) == Step(Ok(impl), c.(nextName := None), Some(n))
  {
    assert [n][1..] == [];
    assert [res][1..] == [];
    assert Seek([res][1..], Some([n]), {}) == Probe(Ok(true), Cursor(Some([]), Some([]), Some(n)));
  }

  lemma DeclaredLineParsed(res: Resource, n: string)
    requires ValidProviderName(n) && n[|n| - 1] > ' '
    requires res.opens && !res.closeFails && !res.readFails && res.lines == [n]
    ensures ParseResource(res, {}) == Ok([n])
  {
    NameLineAccepted([], n, []);
    assert [] + n + [] == n;
    OneLineFile(res, {});
  }

  /** A loader whose one configuration file declares one implementation of the
      service serves that class first. */
  method ServeDeclaredProvider(service: JClass, impl: JClass, url: string) returns (more: Result<bool, ConfigError>, first: Result<JClass, ConfigError>)
    requires ValidProviderName(impl.name) && impl.name[|impl.name| - 1] > ' '
    requires Assignable(service, impl)
    ensures more == Ok(true)
    ensures first == Ok(impl)
  {
    var res := Resource(url, true, [impl.name], false, false);
    var classes := ClassLoader(map[impl.name := Loaded(impl)]);
    var scl := new ServiceClassLoader(service, classes, map[Prefix + service.name := Found([res])]);
    DeclaredLineParsed(res, impl.name);
    assert scl.Lookup() == Found([res]);
    var it := scl.Iterator();
    assert it.known == [];
    SingleProvider(res, impl.name, classes, service, impl);
    assert scl.providerClasses.Keys == {};
    more := it.HasNext();
    assert scl.lookupIterator.State() == Cursor(Some([]), Some([]), Some(impl.name));
    first := it.Next();
  }
}
