/** The plugin system of `examples/plugin_system/plugin_system_demo.cpp`: the text
    processor's string utilities, the name-to-creator registry, and the plugin manager's
    library search and loaded-set bookkeeping. The file system, `dlopen`/`dlsym`, the
    factory and `initialize` are parameters. */
module Plugins {
  import opened Wrappers

  // ---------------------------------------------------------------------------
  // Text processor
  // ---------------------------------------------------------------------------

  /** `isspace` in the "C" locale. */
  predicate IsSpace(c: char)
  {
    c == ' ' || c == '\t' || c == '\n' || c == '\r' || c == '\U{000C}' || c == '\U{000B}'
  }

  predicate IsLower(c: char)
  {
    'a' <= c <= 'z'
  }

  /** `toupper` in the "C" locale. */
  function UpperChar(c: char): (u: char)
    ensures !IsLower(u)
    ensures IsLower(c) ==> u as int == c as int - 32
    ensures !IsLower(c) ==> u == c
  {
    if IsLower(c) then (c as int - 32) as char else c
  }

  /** `toUpper`: every character upper-cased in place. */
  method ToUpper(str: string) returns (result: string)
    ensures |result| == |str|
    ensures forall i :: 0 <= i < |str| ==> result[i] == UpperChar(str[i])
  {
    result := str;
    var i := 0;
    while i < |result|
      invariant i <= |result| == |str|
      invariant forall k :: 0 <= k < i ==> result[k] == UpperChar(str[k])
      invariant forall k :: i <= k < |str| ==> result[k] == str[k]
    {
      result := result[i := UpperChar(result[i])];
      i := i + 1;
    }
  }

  /** Upper-casing twice is upper-casing once. */
  lemma UpperIdempotent(c: char)
    ensures UpperChar(UpperChar(c)) == UpperChar(c)
  {
  }

  /** `reverse`: the string read from its last character to its first. */
  function Reverse(str: string): (r: string)
    ensures |r| == |str|
    ensures forall i :: 0 <= i < |str| ==> r[i] == str[|str| - 1 - i]
  {
    seq(|str|, i requires 0 <= i < |str| => str[|str| - 1 - i])
  }

  /** Reversing is an involution. */
  lemma ReverseInvolution(str: string)
    ensures Reverse(Reverse(str)) == str
  {
    var r := Reverse(Reverse(str));
    assert forall i :: 0 <= i < |str| ==> r[i] == Reverse(str)[|str| - 1 - i] == str[i];
  }

  /** Reference definition of a word count: the positions where a run of non-space
      characters starts. */
  function WordCount(s: string): nat
  {
    if |s| == 0 then 0
    else WordCount(s[..|s| - 1]) + (if StartsWord(s, |s| - 1) then 1 else 0)
  }

  predicate StartsWord(s: string, i: nat)
    requires i < |s|
  {
    !IsSpace(s[i]) && (i == 0 || IsSpace(s[i - 1]))
  }

  /** `countWords`: the `inWord` flag is raised on the first non-space character of a
      run and lowered on each space; the count goes up on each raise. */
  method CountWords(str: string) returns (count: nat)
    ensures count == WordCount(str)
  {
    count := 0;
    var inWord := false;
    var i := 0;
    while i < |str|
      invariant i <= |str|
      invariant inWord <==> i > 0 && !IsSpace(str[i - 1])
      invariant count == WordCount(str[..i])
    {
      assert str[..i + 1][..i] == str[..i];
      assert StartsWord(str, i) <==> StartsWord(str[..i + 1], i);
      if IsSpace(str[i]) {
        inWord := false;
      } else if !inWord {
        inWord := true;
        count := count + 1;
      }
      i := i + 1;
    }
    assert str[..i] == str;
  }

  /** A non-empty run of non-space characters is one word. */
  lemma {:induction false} OneWord(w: string)
    requires |w| > 0 && forall i :: 0 <= i < |w| ==> !IsSpace(w[i])
    ensures WordCount(w) == 1
    decreases |w|
  {
    if |w| > 1 {
      OneWord(w[..|w| - 1]);
    } else {
      assert w[..0] == [];
    }
  }

  /** Words separated by a space add up. */
  lemma {:induction false} WordCountSpaceJoin(a: string, b: string)
    ensures WordCount(a + [' '] + b) == WordCount(a) + WordCount(b)
    decreases |b|
  {
    var s := a + [' '] + b;
    if |b| == 0 {
      assert s[..|s| - 1] == a;
    } else {
      var b' := b[..|b| - 1];
      WordCountSpaceJoin(a, b');
      assert s[..|s| - 1] == a + [' '] + b';
      assert StartsWord(s, |s| - 1) <==> StartsWord(b, |b| - 1);
    }
  }

  /** The demo text "Hello, World!" has two words. */
  lemma HelloWorldWords()
    ensures WordCount("Hello, World!") == 2
  {
    OneWord("Hello,");
    OneWord("World!");
    WordCountSpaceJoin("Hello,", "World!");
    assert "Hello," + [' '] + "World!" == "Hello, World!";
  }

  // ---------------------------------------------------------------------------
  // Registry
  // ---------------------------------------------------------------------------

  /** `PluginRegistry`: the creators by name, an unordered map. */
  datatype Registry<C> = Registry(creators: map<string, C>)

  /** `registerPlugin`: `creators[name] = creator`, replacing an earlier creator. */
  function RegisterPlugin<C>(r: Registry<C>, name: string, creator: C): (r': Registry<C>)
    ensures r'.creators.Keys == r.creators.Keys + {name}
  {
    Registry(r.creators[name := creator])
  }

  /** `createPlugin`: the registered creator's product, or null for an unknown name. */
  function CreatePlugin<C>(r: Registry<C>, name: string): (c: Option<C>)
    ensures c.None? <==> name !in r.creators
  {
    if name in r.creators then Some(r.creators[name]) else None
  }

  /** After registering, `createPlugin(name)` yields the new creator and every other
      name is served as before. */
  lemma RegisterThenCreate<C>(r: Registry<C>, name: string, creator: C, other: string)
    ensures CreatePlugin(RegisterPlugin(r, name, creator), name) == Some(creator)
    ensures other != name ==>
              CreatePlugin(RegisterPlugin(r, name, creator), other) == CreatePlugin(r, other)
  {
  }

  /** `getAvailablePlugins`: one `push_back` per map entry, in the map's (unspecified)
      iteration order. */
  method GetAvailablePlugins<C>(r: Registry<C>) returns (names: seq<string>)
    ensures forall n :: n in names <==> CreatePlugin(r, n).Some?
    ensures forall i, j :: 0 <= i < j < |names| ==> names[i] != names[j]
  {
    names := [];
    var remaining := r.creators.Keys;
    while remaining != {}
      invariant remaining <= r.creators.Keys
      invariant forall n :: n in names <==> n in r.creators && n !in remaining
      invariant forall i, j :: 0 <= i < j < |names| ==> names[i] != names[j]
      decreases |remaining|
    {
      var n :| n in remaining;
      names := names + [n];
      remaining := remaining - {n};
    }
  }

  /** The three built-in plugins the registry's constructor registers. */
  datatype BuiltIn = CalculatorPlugin | TextProcessorPlugin | DataAnalyzerPlugin

  function DefaultRegistry(): Registry<BuiltIn>
  {
    var r0 := RegisterPlugin(Registry(map[]), "Calculator", CalculatorPlugin);
    var r1 := RegisterPlugin(r0, "TextProcessor", TextProcessorPlugin);
    RegisterPlugin(r1, "DataAnalyzer", DataAnalyzerPlugin)
  }

  /** The built-in registry serves its three names, each with its own plugin, and
      nothing else. */
  lemma DefaultRegistryServes(name: string)
    ensures CreatePlugin(DefaultRegistry(), "Calculator") == Some(CalculatorPlugin)
    ensures CreatePlugin(DefaultRegistry(), "TextProcessor") == Some(TextProcessorPlugin)
    ensures CreatePlugin(DefaultRegistry(), "DataAnalyzer") == Some(DataAnalyzerPlugin)
    ensures CreatePlugin(DefaultRegistry(), name).Some? <==>
              name in {"Calculator", "TextProcessor", "DataAnalyzer"}
  {
  }

  // ---------------------------------------------------------------------------
  // Plugin manager
  // ---------------------------------------------------------------------------

  /** `PluginManager`: the loaded plugins by name (each with its library handle) and the
      directories searched for libraries. */
  datatype Manager<P> = Manager(loaded: map<string, P>, directories: seq<string>)

  /** The constructor searches `./plugins`, then `../plugins`. */
  function NewManager<P>(): (m: Manager<P>)
    ensures m.loaded == map[]
    ensures m.directories == ["./plugins", "../plugins"]
  {
    Manager(map[], ["./plugins", "../plugins"])
  }

  /** `addPluginDirectory`: searched after every directory already listed. */
  function AddPluginDirectory<P>(m: Manager<P>, dir: string): (m': Manager<P>)
    ensures m'.loaded == m.loaded
    ensures |m'.directories| == |m.directories| + 1
    ensures m'.directories[..|m.directories|] == m.directories
    ensures m'.directories[|m.directories|] == dir
  {
    Manager(m.loaded, m.directories + [dir])
  }

  /** The four file names tried for a plugin, in order. */
  function PossibleNames(name: string): seq<string>
  {
    ["lib" + name + ".so", name + ".so", "lib" + name + ".dylib", name + ".dylib"]
  }

  /** Every candidate path in search order: directories outermost, file names innermost. */
  function Candidates(dirs: seq<string>, name: string): (c: seq<string>)
    ensures |c| == 4 * |dirs|
  {
    seq(4 * |dirs|, k requires 0 <= k < 4 * |dirs| => dirs[k / 4] + "/" + PossibleNames(name)[k % 4])
  }

  /** Reference definition: the first path of `paths` that exists, or "" when none does. */
  function FirstExisting(paths: seq<string>, fileExists: string -> bool): string
  {
    if |paths| == 0 then ""
    else if fileExists(paths[0]) then paths[0]
    else FirstExisting(paths[1..], fileExists)
  }

  lemma {:induction false} FirstExistingIs(paths: seq<string>, fileExists: string -> bool, k: nat)
    requires k < |paths| && fileExists(paths[k])
    requires forall j :: 0 <= j < k ==> !fileExists(paths[j])
    ensures FirstExisting(paths, fileExists) == paths[k]
    decreases k
  {
    if k > 0 {
      assert !fileExists(paths[0]);
      FirstExistingIs(paths[1..], fileExists, k - 1);
    }
  }

  lemma {:induction false} FirstExistingNone(paths: seq<string>, fileExists: string -> bool)
    requires forall j :: 0 <= j < |paths| ==> !fileExists(paths[j])
    ensures FirstExisting(paths, fileExists) == ""
    decreases |paths|
  {
    if |paths| > 0 {
      assert !fileExists(paths[0]);
      FirstExistingNone(paths[1..], fileExists);
    }
  }

  lemma FirstExistingAbsent(paths: seq<string>, fileExists: string -> bool)
    ensures (forall j :: 0 <= j < |paths| ==> !fileExists(paths[j])) ==> FirstExisting(paths, fileExists) == ""
  {
    if forall j :: 0 <= j < |paths| ==> !fileExists(paths[j]) {
      FirstExistingNone(paths, fileExists);
    }
  }

  /** No candidate library file exists in any of the manager's directories. */
  predicate NoLibrary<P>(m: Manager<P>, name: string, fileExists: string -> bool)
  {
    forall k :: 0 <= k < |Candidates(m.directories, name)| ==> !fileExists(Candidates(m.directories, name)[k])
  }

  /** The library `loadPlugin` opens: the first candidate of the search order that exists. */
  function LibraryPath<P>(m: Manager<P>, name: string, fileExists: string -> bool): string
  {
    FirstExisting(Candidates(m.directories, name), fileExists)
  }

  /** `findPluginLibrary`: the first candidate that exists, or "" when none does. */
  method FindPluginLibrary(dirs: seq<string>, name: string, fileExists: string -> bool)
    returns (path: string)
    ensures path == FirstExisting(Candidates(dirs, name), fileExists)
    ensures path == "" <==> forall k :: 0 <= k < |Candidates(dirs, name)| ==> !fileExists(Candidates(dirs, name)[k])
    ensures path != "" ==>
              exists k :: 0 <= k < |Candidates(dirs, name)| && path == Candidates(dirs, name)[k]
                          && fileExists(path) && forall j :: 0 <= j < k ==> !fileExists(Candidates(dirs, name)[j])
  {
    var cands := Candidates(dirs, name);
    var names := PossibleNames(name);
    for i := 0 to |dirs|
      invariant forall k :: 0 <= k < 4 * i ==> !fileExists(cands[k])
    {
      for j := 0 to |names|
        invariant forall k :: 0 <= k < 4 * i + j ==> !fileExists(cands[k])
      {
        var fullPath := dirs[i] + "/" + names[j];
        assert fullPath == cands[4 * i + j] && fullPath != "";
        if fileExists(fullPath) {
          FirstExistingIs(cands, fileExists, 4 * i + j);
          return fullPath;
        }
      }
    }
    FirstExistingNone(cands, fileExists);
    return "";
  }

  /** The outcome of `dlopen`, `dlsym("createPlugin")`, the factory and `initialize` for
      a library path: a ready plugin, or nothing when any step fails. */
  type Opener<!P> = string -> Option<P>

  /** `loadPlugin`: an already loaded name succeeds at once; otherwise the library
      `findPluginLibrary` finds in the manager's directories is opened, and the plugin
      it yields is stored under the name. */
  function LoadPlugin<P>(m: Manager<P>, name: string, fileExists: string -> bool, open: Opener<P>)
    : (r: (Manager<P>, bool))
    ensures name in m.loaded ==> r == (m, true)
    ensures name !in m.loaded && NoLibrary(m, name, fileExists) ==> r == (m, false)
    ensures name !in m.loaded ==>
              (r.1 <==> LibraryPath(m, name, fileExists) != "" && open(LibraryPath(m, name, fileExists)).Some?)
    ensures name !in m.loaded && r.1 ==>
              r.0.loaded == m.loaded[name := open(LibraryPath(m, name, fileExists)).value]
    ensures !r.1 ==> r.0 == m
    ensures r.1 <==> name in r.0.loaded
    ensures r.0.directories == m.directories
    ensures forall n :: n != name ==> (n in r.0.loaded <==> n in m.loaded)
    ensures forall n :: n != name && n in m.loaded ==> r.0.loaded[n] == m.loaded[n]
  {
    var path := LibraryPath(m, name, fileExists);
    FirstExistingAbsent(Candidates(m.directories, name), fileExists);
    if name in m.loaded then (m, true)
    else if path == "" then (m, false)
    else match open(path)
      case None => (m, false)
      case Some(p) => (Manager(m.loaded[name := p], m.directories), true)
  }

  /** `unloadPlugin`: false with no change for an unloaded name. */
  function UnloadPlugin<P>(m: Manager<P>, name: string): (r: (Manager<P>, bool))
    ensures r.1 <==> name in m.loaded
    ensures !r.1 ==> r.0 == m
    ensures r.0.loaded.Keys == m.loaded.Keys - {name}
    ensures r.0.directories == m.directories
  {
    if name !in m.loaded then (m, false)
    else (Manager(m.loaded - {name}, m.directories), true)
  }

  /** `unloadAllPlugins`. */
  function UnloadAllPlugins<P>(m: Manager<P>): (r: Manager<P>)
    ensures r.loaded == map[] && r.directories == m.directories
  {
    Manager(map[], m.directories)
  }

  /** `executePlugin`: succeeds exactly for a loaded name; the state does not change. */
  function ExecutePlugin<P>(m: Manager<P>, name: string): (ok: bool)
    ensures ok <==> GetPlugin(m, name).Some?
  {
    name in m.loaded
  }

  /** `getPlugin`. */
  function GetPlugin<P>(m: Manager<P>, name: string): (p: Option<P>)
    ensures p.Some? <==> name in m.loaded
    ensures p.Some? ==> p.value == m.loaded[name]
  {
    if name in m.loaded then Some(m.loaded[name]) else None
  }

  /** Loading twice is loading once, and a successful load is undone by an unload. */
  lemma LoadUnload<P>(m: Manager<P>, name: string, fileExists: string -> bool, open: Opener<P>)
    ensures var r := LoadPlugin(m, name, fileExists, open);
            LoadPlugin(r.0, name, fileExists, open) == (r.0, r.1)
    ensures name !in m.loaded && LoadPlugin(m, name, fileExists, open).1 ==>
              UnloadPlugin(LoadPlugin(m, name, fileExists, open).0, name) == (m, true)
  {
    var r := LoadPlugin(m, name, fileExists, open);
    if name !in m.loaded && r.1 {
      assert r.0.loaded - {name} == m.loaded;
    }
  }
}
