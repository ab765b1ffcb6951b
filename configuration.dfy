/** Configuration: the reader. It resolves a file name under one of three
    modes (class path, physical path, HDFS), parses the resource into a
    field-to-value map and caches it under the caller's own file name; the
    last successful resolution also overwrites the shared BASE_DIR.

    Everything outside the class is given as a Resolver: the class loader's
    lookup, URL construction, URL.getPath, opening and parsing a stream
    (java.util.Properties.load) and the HDFS client. */
module Configurations {
  import opened Common

  const ClasspathLoad: int := 1
  const PhysicalPathLoad: int := 2
  const HdfsPathLoad: int := 3
  const HdfsPrefix: string := "hdfs://"

  datatype Url = Url(spec: string)

  /** A parsed properties file. */
  type Props = map<string, string>

  /** The collaborators of the reader that lie outside this model. */
  datatype Resolver = Resolver(
    /** ClassLoader.getResource */
    classLoad: string -> Option<Url>,
    /** new File(name).toURI().toURL(); None for a MalformedURLException */
    fileUrl: string -> Option<Url>,
    /** new URL(name) once the HDFS stream handlers are registered; None for any exception */
    remoteUrl: string -> Option<Url>,
    /** URL.getPath */
    urlPath: Url -> string,
    /** url.openStream() and Properties.load; None for an IOException */
    readUrl: Url -> Option<Props>,
    /** FileReader on the name and Properties.load; None for an IOException */
    readFile: string -> Option<Props>,
    /** new URI(name), FileSystem.get and hdfs.open all succeed */
    openRemote: string -> bool,
    /** URI.getPath of the name */
    uriPath: string -> string,
    /** Properties.load from the opened HDFS stream; None for any exception */
    readRemote: string -> Option<Props>)

  /** The exception a failed load throws. */
  datatype LoadError = NullPointer | IoFailure

  datatype LoadOutcome = Loaded | Failed(error: LoadError)

  /** What propertyNames returns: null for a name never loaded, the field
      names, or a NullPointerException for a name cached with no properties. */
  datatype NamesOutcome = NotLoaded | Names(names: seq<string>) | NullProperties

  /** The name with every double quote removed (String.replace("\"", "")). */
  function StripQuotes(s: string): (r: string)
    ensures '"' !in r
    ensures |r| == |s| - multiset(s)['"']
    ensures multiset(r) == multiset(s)['"' := 0]
    ensures '"' !in s ==> r == s
  {
    if s == [] then []
    else
      assert s == [s[0]] + s[1..];
      if s[0] == '"' then StripQuotes(s[1..])
    else [s[0]] + StripQuotes(s[1..])
  }

  /** Quote removal works piece by piece: it keeps the order of everything else. */
  lemma {:induction false} StripQuotesConcat(a: string, b: string)
    ensures StripQuotes(a + b) == StripQuotes(a) + StripQuotes(b)
    decreases |a|
  {
    if a != [] {
      assert (a + b)[1..] == a[1..] + b;
      StripQuotesConcat(a[1..], b);
    } else {
      assert a + b == b;
    }
  }

  /** The class-path lookup name: quotes removed, then one leading '/' dropped. */
  function NormaliseClasspathName(s: string): (r: string)
    ensures '"' !in r
    ensures StripQuotes(s) == r || StripQuotes(s) == "/" + r
    ensures |StripQuotes(s)| > 0 && StripQuotes(s)[0] == '/' ==> "/" + r == StripQuotes(s)
    ensures '"' !in s && (s == [] || s[0] != '/') ==> r == s
  {
    var t := StripQuotes(s);
    if |t| > 0 && t[0] == '/' then t[1..] else t
  }

  /** Only one leading '/' is dropped: "//a" is looked up as "/a". */
  lemma NormaliseStripsOneSlash(rest: string)
    ensures NormaliseClasspathName("//" + rest) == "/" + StripQuotes(rest)
  {
    StripQuotesConcat("//", rest);
    assert StripQuotes("//") == "//" by {
      assert "//"[1..] == "/";
      assert "/"[1..] == "";
    }
  }

  /** getResource: resolves a name under a mode without reading it; the
      switch has no default, so any other mode resolves to null. */
  function GetResource(env: Resolver, name: string, mode: int): (r: Option<Url>)
    ensures mode == ClasspathLoad ==> r == env.classLoad(NormaliseClasspathName(name))
    ensures mode == PhysicalPathLoad ==> r == env.fileUrl(name)
    ensures mode == HdfsPathLoad ==> r == env.remoteUrl(name)
    ensures mode !in {ClasspathLoad, PhysicalPathLoad, HdfsPathLoad} ==> r == None
  {
    if mode == ClasspathLoad then env.classLoad(NormaliseClasspathName(name))
    else if mode == PhysicalPathLoad then env.fileUrl(name)
    else if mode == HdfsPathLoad then env.remoteUrl(name)
    else None
  }

  /** The resolution of one name, as a sequence of at most one URL. */
  function Resolution(env: Resolver, name: string, mode: int): seq<Url>
  {
    match GetResource(env, name, mode)
    case Some(u) => [u]
    case None => []
  }

  /** The names that resolve, resolved, in input order. */
  function Resolved(env: Resolver, names: seq<string>, mode: int): seq<Url>
  {
    if names == [] then [] else Resolution(env, names[0], mode) + Resolved(env, names[1..], mode)
  }

  /** Resolving a concatenation resolves each part in turn: order is kept. */
  lemma {:induction false} ResolvedConcat(env: Resolver, a: seq<string>, b: seq<string>, mode: int)
    ensures Resolved(env, a + b, mode) == Resolved(env, a, mode) + Resolved(env, b, mode)
    decreases |a|
  {
    if a != [] {
      var first := Resolution(env, a[0], mode);
      assert (a + b)[0] == a[0];
      assert (a + b)[1..] == a[1..] + b;
      ResolvedConcat(env, a[1..], b, mode);
      assert Resolved(env, a + b, mode) == first + (Resolved(env, a[1..], mode) + Resolved(env, b, mode));
    } else {
      assert a + b == b;
    }
  }

  /** A URL is among the resolutions exactly when some name resolves to it,
      and there are never more resolutions than names. */
  lemma {:induction false} ResolvedMembers(env: Resolver, names: seq<string>, mode: int)
    ensures |Resolved(env, names, mode)| <= |names|
    ensures forall u :: u in Resolved(env, names, mode) <==>
              exists i :: 0 <= i < |names| && GetResource(env, names[i], mode) == Some(u)
    decreases |names|
  {
    if names != [] {
      ResolvedMembers(env, names[1..], mode);
      forall u ensures u in Resolved(env, names, mode) <==>
                 exists i :: 0 <= i < |names| && GetResource(env, names[i], mode) == Some(u)
      {
        if exists i :: 0 <= i < |names| && GetResource(env, names[i], mode) == Some(u) {
          var i :| 0 <= i < |names| && GetResource(env, names[i], mode) == Some(u);
          if i > 0 {
            assert names[1..][i - 1] == names[i];
          }
        }
        if u in Resolved(env, names[1..], mode) {
          var i :| 0 <= i < |names[1..]| && GetResource(env, names[1..][i], mode) == Some(u);
          assert names[i + 1] == names[1..][i];
        }
      }
    }
  }

  /** getResources: the resolutions of the names that resolve, in input
      order, or null when none does (an empty input included). */
  method GetResources(env: Resolver, names: seq<string>, mode: int) returns (r: Option<seq<Url>>)
    ensures r.None? <==> Resolved(env, names, mode) == []
    ensures r.Some? ==> r.value == Resolved(env, names, mode)
  {
    var res: seq<Url> := [];
    for i := 0 to |names|
      invariant res == Resolved(env, names[..i], mode)
    {
      var url := GetResource(env, names[i], mode);
      ResolvedConcat(env, names[..i], [names[i]], mode);
      assert names[..i + 1] == names[..i] + [names[i]];
      assert [names[i]][1..] == [];
      if url.Some? {
        res := res + [url.value];
      }
    }
    assert names[..|names|] == names;
    if |res| > 0 {
      r := Some(res);
    } else {
      r := None;
    }
  }

  /** The field names of a properties map, each once, in iteration order. */
  method EnumerateKeys(p: Props) returns (ks: seq<string>)
    ensures Enumerates(ks, p.Keys)
  {
    var rest := p.Keys;
    ks := [];
    while rest != {}
      invariant rest <= p.Keys
      invariant forall i, j :: 0 <= i < j < |ks| ==> ks[i] != ks[j]
      invariant forall k :: k in ks <==> k in p.Keys - rest
      decreases |rest|
    {
      var k :| k in rest;
      assert k !in ks;
      ks := ks + [k];
      rest := rest - {k};
    }
  }

  class Configuration {
    const env: Resolver
    /** The cache: file name as given by the caller to its parsed properties
        (None for the null a load under an unknown mode stores). */
    var properties: map<string, Option<Props>>
    var baseDir: Option<string>

    constructor (env: Resolver)
      ensures this.env == env && properties == map[] && baseDir == None
    {
      this.env := env;
      properties := map[];
      baseDir := None;
    }

    /** The cached properties of a file name; null when absent or stored as null. */
    function GetProperties(name: string): (r: Option<Props>)
      reads this`properties
      ensures r.Some? <==> name in properties && properties[name].Some?
      ensures r.Some? ==> r.value == properties[name].value
    {
      if name in properties then properties[name] else None
    }

    /** Parses the named resource and caches it under `name` exactly as given,
        replacing any earlier entry; BASE_DIR records where it was found. */
    method LoadProperties(name: string, mode: int) returns (outcome: LoadOutcome)
      modifies this`properties, this`baseDir
      ensures outcome.Failed? ==> properties == old(properties)
      ensures mode == ClasspathLoad ==>
                match env.classLoad(name)
                case None => outcome == Failed(NullPointer) && baseDir == old(baseDir)
                case Some(u) =>
                  && baseDir == Some(env.urlPath(u))
                  && match env.readUrl(u)
                     case None => outcome == Failed(IoFailure)
                     case Some(p) => outcome == Loaded && properties == old(properties)[name := Some(p)]
      ensures mode == PhysicalPathLoad ==>
                && baseDir == Some(name)
                && match env.readFile(name)
                   case None => outcome == Failed(IoFailure)
                   case Some(p) => outcome == Loaded && properties == old(properties)[name := Some(p)]
      ensures mode == HdfsPathLoad && !(HdfsPrefix <= name && env.openRemote(name)) ==>
                outcome == Failed(NullPointer) && baseDir == old(baseDir)
      ensures mode == HdfsPathLoad && HdfsPrefix <= name && env.openRemote(name) ==>
                && baseDir == Some(env.uriPath(name))
                && match env.readRemote(name)
                   case None => outcome == Failed(NullPointer)
                   case Some(p) => outcome == Loaded && properties == old(properties)[name := Some(p)]
      ensures mode !in {ClasspathLoad, PhysicalPathLoad, HdfsPathLoad} ==>
                outcome == Loaded && baseDir == old(baseDir) && properties == old(properties)[name := None]
    {
      var prop: Option<Props> := None;
      if mode == ClasspathLoad {
        var url := env.classLoad(name);
        if url.None? {
          return Failed(NullPointer);
        }
        baseDir := Some(env.urlPath(url.value));
        prop := env.readUrl(url.value);
        if prop.None? {
          return Failed(IoFailure);
        }
      } else if mode == PhysicalPathLoad {
        baseDir := Some(name);
        prop := env.readFile(name);
        if prop.None? {
          return Failed(IoFailure);
        }
      } else if mode == HdfsPathLoad {
        if !(HdfsPrefix <= name) {
          return Failed(NullPointer);
        }
        if !env.openRemote(name) {
          return Failed(NullPointer);
        }
        baseDir := Some(env.uriPath(name));
        prop := env.readRemote(name);
        if prop.None? {
          return Failed(NullPointer);
        }
      }
      properties := properties[name := prop];
      outcome := Loaded;
    }

    /** The cached value of `field` in `propName`; null when the file was not
        loaded, was loaded as null, or has no such field. */
    function ReadProperty(propName: string, field: string): (r: Option<string>)
      reads this`properties
      ensures r.Some? <==> propName in properties && properties[propName].Some? && field in properties[propName].value
      ensures r.Some? ==> r.value == properties[propName].value[field]
    {
      if propName in properties then
        match properties[propName]
        case None => None
        case Some(p) => if field in p then Some(p[field]) else None
      else None
    }

    /** The field names of a loaded file, each once (the array form). */
    method PropertyNames(propName: string) returns (r: NamesOutcome)
      ensures r == NotLoaded <==> propName !in properties
      ensures r == NullProperties <==> propName in properties && properties[propName].None?
      ensures r.Names? ==> propName in properties && properties[propName].Some? &&
                           Enumerates(r.names, properties[propName].value.Keys)
    {
      if propName in properties {
        match properties[propName]
        case None =>
          r := NullProperties;
        case Some(p) =>
          var ks := EnumerateKeys(p);
          r := Names(ks);
      } else {
        r := NotLoaded;
      }
    }

    /** The field names of a loaded file, each once (the list form). */
    method PropertyNamesList(propName: string) returns (r: NamesOutcome)
      ensures r == NotLoaded <==> propName !in properties
      ensures r == NullProperties <==> propName in properties && properties[propName].None?
      ensures r.Names? ==> propName in properties && properties[propName].Some? &&
                           Enumerates(r.names, properties[propName].value.Keys)
    {
      if propName !in properties {
        r := NotLoaded;
      } else {
        match properties[propName]
        case None =>
          r := NullProperties;
        case Some(p) =>
          var ks := EnumerateKeys(p);
          r := Names(ks);
      }
    }
  }

  /** Loading one name twice, first from the class path and then from the
      file system, both loads succeeding, leaves only the second file's
      fields readable: a reload replaces the cached map, it does not merge. */
  method ReloadReplaces(env: Resolver, name: string, field: string) returns (value: Option<string>)
    requires env.classLoad(name).Some? && env.readUrl(env.classLoad(name).value).Some?
    requires env.readFile(name).Some?
    ensures value == if field in env.readFile(name).value then Some(env.readFile(name).value[field]) else None
  {
    var c := new Configuration(env);
    var first := c.LoadProperties(name, ClasspathLoad);
    var second := c.LoadProperties(name, PhysicalPathLoad);
    value := c.ReadProperty(name, field);
  }
}
