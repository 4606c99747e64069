/** Loading a chain specification's genesis, parsing block ids, and finding the genesis runtime. */
module ChainSpec {
  import opened Outcomes
  import opened Bytes
  import opened Hex

  /** The parsed JSON: a value and named children in file order, names possibly repeated. */
  datatype Tree = Tree(data: string, children: seq<(string, Tree)>)

  datatype LoadError = MissingEntry | ParserError | BadHex(error: UnhexError)

  type RawData = seq<(ByteSeq, ByteSeq)>

  /** The first child of that name. */
  function Child(t: Tree, name: string): Option<Tree> {
    FirstNamed(t.children, name)
  }

  function FirstNamed(children: seq<(string, Tree)>, name: string): Option<Tree> {
    if children == [] then None
    else if children[0].0 == name then Some(children[0].1)
    else FirstNamed(children[1..], name)
  }

  /** A child is found exactly if there is one of that name, and then it is the first one. */
  lemma {:induction false} FirstNamedExact(children: seq<(string, Tree)>, name: string)
    ensures FirstNamed(children, name) == None <==> forall i :: 0 <= i < |children| ==> children[i].0 != name
    ensures FirstNamed(children, name).Some? ==>
              exists i :: 0 <= i < |children| && children[i] == (name, FirstNamed(children, name).value) &&
                          forall j :: 0 <= j < i ==> children[j].0 != name
  {
    if children == [] {
    } else if children[0].0 == name {
      assert children[0] == (name, FirstNamed(children, name).value);
    } else {
      FirstNamedExact(children[1..], name);
      assert forall i :: 0 < i < |children| ==> children[i] == children[1..][i - 1];
      if FirstNamed(children, name).Some? {
        var k :| 0 <= k < |children[1..]| && children[1..][k] == (name, FirstNamed(children, name).value) &&
                 forall j :: 0 <= j < k ==> children[1..][j].0 != name;
        assert children[k + 1] == (name, FirstNamed(children, name).value);
      }
    }
  }

  // ---------------------------------------------------------------- the raw genesis

  function EntryOf(child: (string, Tree)): Result<(ByteSeq, ByteSeq), LoadError> {
    match (Unhex0xOf(child.0), Unhex0xOf(child.1.data))
    case (Err(e), _) => Err(BadHex(e))
    case (_, Err(e)) => Err(BadHex(e))
    case (Ok(key), Ok(value)) => Ok((key, value))
  }

  /** The entries in order, up to the first that does not decode, and its error. */
  function BlockOf(children: seq<(string, Tree)>): (RawData, Option<LoadError>) {
    if children == [] then ([], None)
    else
      var (data, error) := BlockOf(children[..|children| - 1]);
      if error.Some? then (data, error)
      else
        match EntryOf(children[|children| - 1])
        case Err(e) => (data, Some(e))
        case Ok(entry) => (data + [entry], None)
  }

  /** What is wrong with a child trie: the first bad entry of its block, or else its name. */
  function TrieError(child: (string, Tree)): Option<LoadError> {
    if BlockOf(child.1.children).1.Some? then BlockOf(child.1.children).1
    else
      match Unhex0xOf(child.0)
      case Err(e) => Some(BadHex(e))
      case Ok(_) => None
  }

  /** Child tries by key, up to the first that does not load; a key decoded before keeps its first data. */
  function ChildrenOf(start: map<ByteSeq, RawData>, children: seq<(string, Tree)>)
    : (map<ByteSeq, RawData>, Option<LoadError>)
    decreases |children|
  {
    if children == [] then (start, None)
    else
      var (tries, error) := ChildrenOf(start, children[..|children| - 1]);
      var (name, tree) := children[|children| - 1];
      if error.Some? then (tries, error)
      else if TrieError((name, tree)).Some? then (tries, TrieError((name, tree)))
      else
        var key := Unhex0xOf(name).value;
        (if key in tries then tries else tries[key := BlockOf(tree.children).0], None)
  }

  class Spec {
    var genesis: RawData
    var childrenDefault: map<ByteSeq, RawData>

    constructor ()
      ensures genesis == [] && childrenDefault == map[]
    {
      genesis, childrenDefault := [], map[];
    }

    /** Loads the child tries first, then the top block; whatever was read before an error stays. A raw genesis
        without a "top" entry falls back on its first child, which is reached for whether or not there is one. */
    method LoadGenesis(tree: Tree) returns (r: Checked<Option<LoadError>>)
      modifies this
      ensures r.OutOfBounds? <==> Raw(tree).Some? && !HasTop(Raw(tree).value)
      ensures r.OutOfBounds? ==> genesis == old(genesis) && childrenDefault == old(childrenDefault)
      ensures Raw(tree).None? ==>
                r == Returned(Some(MissingEntry)) && genesis == old(genesis) && childrenDefault == old(childrenDefault)
      ensures Raw(tree).Some? && HasTop(Raw(tree).value) ==>
                var tries := ChildrenOf(old(childrenDefault), Tries(Raw(tree).value));
                var top := BlockOf(Top(Raw(tree).value));
                && childrenDefault == tries.0
                && genesis == old(genesis) + (if tries.1.Some? then [] else top.0)
                && r == Returned(if tries.1.Some? then tries.1 else top.1)
    {
      var genesisTree := Child(tree, "genesis");
      if genesisTree.None? {
        return Returned(Some(MissingEntry));
      }
      var raw := Child(genesisTree.value, "raw");
      if raw.None? {
        return Returned(Some(MissingEntry));
      }
      var top := Child(raw.value, "top");
      if top.None? && raw.value.children == [] {
        return OutOfBounds;
      }
      var topChildren := if top.Some? then top.value.children else raw.value.children[0].1.children;
      var tries := Child(raw.value, "childrenDefault");
      if tries.Some? {
        var failure := LoadChildren(tries.value.children);
        if failure.Some? {
          return Returned(failure);
        }
      }
      var data, error := ReadKeyBlock(topChildren);
      genesis := genesis + data;
      return Returned(error);
    }

    method LoadChildren(children: seq<(string, Tree)>) returns (r: Option<LoadError>)
      modifies this`childrenDefault
      ensures (childrenDefault, r) == ChildrenOf(old(childrenDefault), children)
    {
      ghost var start := childrenDefault;
      var i := 0;
      while i < |children|
        invariant i <= |children| && ChildrenOf(start, children[..i]) == (childrenDefault, None)
      {
        assert children[..i + 1][..i] == children[..i];
        var data, error := ReadKeyBlock(children[i].1.children);
        if error.Some? {
          ChildrenStop(start, children, i + 1);
          return error;
        }
        var key := UnhexWith0x(children[i].0);
        if key.Err? {
          ChildrenStop(start, children, i + 1);
          return Some(BadHex(key.error));
        }
        if key.value !in childrenDefault {
          childrenDefault := childrenDefault[key.value := data];
        }
        i := i + 1;
      }
      assert children[..i] == children;
      return None;
    }
  }

  method ReadKeyBlock(children: seq<(string, Tree)>) returns (data: RawData, error: Option<LoadError>)
    ensures (data, error) == BlockOf(children)
  {
    data := [];
    var i := 0;
    while i < |children|
      invariant i <= |children| && BlockOf(children[..i]) == (data, None)
    {
      assert children[..i + 1][..i] == children[..i];
      var key := UnhexWith0x(children[i].0);
      if key.Err? {
        BlockStop(children, i + 1);
        return data, Some(BadHex(key.error));
      }
      var value := UnhexWith0x(children[i].1.data);
      if value.Err? {
        BlockStop(children, i + 1);
        return data, Some(BadHex(value.error));
      }
      data := data + [(key.value, value.value)];
      i := i + 1;
    }
    assert children[..i] == children;
    error := None;
  }

  lemma {:induction false} BlockStop(children: seq<(string, Tree)>, i: nat)
    requires i <= |children| && BlockOf(children[..i]).1.Some?
    ensures BlockOf(children) == BlockOf(children[..i])
    decreases |children| - i
  {
    if i == |children| {
      assert children[..i] == children;
    } else {
      assert children[..i + 1][..i] == children[..i];
      BlockStop(children, i + 1);
    }
  }

  lemma {:induction false} ChildrenStop(start: map<ByteSeq, RawData>, children: seq<(string, Tree)>, i: nat)
    requires i <= |children| && ChildrenOf(start, children[..i]).1.Some?
    ensures ChildrenOf(start, children) == ChildrenOf(start, children[..i])
    decreases |children| - i
  {
    if i == |children| {
      assert children[..i] == children;
    } else {
      assert children[..i + 1][..i] == children[..i];
      ChildrenStop(start, children, i + 1);
    }
  }

  function Raw(tree: Tree): Option<Tree> {
    match Child(tree, "genesis")
    case None => None
    case Some(g) => Child(g, "raw")
  }

  /** There is a block to take for the top one. */
  predicate HasTop(raw: Tree) {
    Child(raw, "top").Some? || raw.children != []
  }

  function Top(raw: Tree): seq<(string, Tree)>
    requires HasTop(raw)
  {
    match Child(raw, "top")
    case Some(top) => top.children
    case None => raw.children[0].1.children
  }

  function Tries(raw: Tree): seq<(string, Tree)> {
    match Child(raw, "childrenDefault")
    case Some(t) => t.children
    case None => []
  }

  // ---------------------------------------------------------------- printed data loads back

  function Printed(data: RawData): seq<(string, Tree)> {
    seq(|data|, i requires 0 <= i < |data| => (HexOf(data[i].0), Tree(HexOf(data[i].1), [])))
  }

  /** A key block loads exactly when every key and value is well-formed hex, and then entry by entry. */
  lemma {:induction false} BlockExact(children: seq<(string, Tree)>)
    ensures BlockOf(children).1.None? <==>
            forall i :: 0 <= i < |children| ==> Unhex0xOf(children[i].0).Ok? && Unhex0xOf(children[i].1.data).Ok?
    ensures BlockOf(children).1.None? ==>
              && |BlockOf(children).0| == |children|
              && forall i :: 0 <= i < |children| ==>
                   Ok(BlockOf(children).0[i].0) == Unhex0xOf(children[i].0) &&
                   Ok(BlockOf(children).0[i].1) == Unhex0xOf(children[i].1.data)
  {
    if children == [] {
    } else {
      var init := children[..|children| - 1];
      BlockExact(init);
      assert forall i :: 0 <= i < |init| ==> init[i] == children[i];
    }
  }

  /** Any list of key/value pairs, printed and loaded, is the same list in the same order. */
  lemma PrintedBlockLoads(data: RawData)
    ensures BlockOf(Printed(data)) == (data, None)
  {
    var children := Printed(data);
    forall i | 0 <= i < |children|
      ensures Unhex0xOf(children[i].0) == Ok(data[i].0) && Unhex0xOf(children[i].1.data) == Ok(data[i].1)
    {
      UnhexPrinted(data[i].0);
      UnhexPrinted(data[i].1);
    }
    BlockExact(children);
    assert BlockOf(children).0 == data;
  }

  /** Of the child tries whose keys decode to the same bytes, the first is the one kept. */
  lemma {:induction false} FirstTrieKept(children: seq<(string, Tree)>, i: nat)
    requires i < |children| && ChildrenOf(map[], children).1.None?
    ensures Unhex0xOf(children[i].0).Ok?
    ensures (forall j :: 0 <= j < i ==> Unhex0xOf(children[j].0) != Unhex0xOf(children[i].0)) ==>
              var key := Unhex0xOf(children[i].0).value;
              key in ChildrenOf(map[], children).0 &&
              ChildrenOf(map[], children).0[key] == BlockOf(children[i].1.children).0
  {
    var n := |children| - 1;
    var init := children[..n];
    if i == n {
      TrieKeysComeFromNames(init);
      assert forall j :: 0 <= j < |init| ==> init[j] == children[j];
    } else {
      FirstTrieKept(init, i);
    }
  }

  /** A trie that was there before loading stays as it was. */
  lemma {:induction false} OldTriesKept(start: map<ByteSeq, RawData>, children: seq<(string, Tree)>, key: ByteSeq)
    requires key in start
    ensures key in ChildrenOf(start, children).0 && ChildrenOf(start, children).0[key] == start[key]
  {
    if children == [] {
    } else {
      OldTriesKept(start, children[..|children| - 1], key);
    }
  }

  lemma {:induction false} TrieKeysComeFromNames(children: seq<(string, Tree)>)
    ensures forall key :: key in ChildrenOf(map[], children).0 ==>
              exists j :: 0 <= j < |children| && Unhex0xOf(children[j].0) == Ok(key)
  {
    if children == [] {
    } else {
      var n := |children| - 1;
      var init := children[..n];
      TrieKeysComeFromNames(init);
      forall key | key in ChildrenOf(map[], children).0
        ensures exists j :: 0 <= j < |children| && Unhex0xOf(children[j].0) == Ok(key)
      {
        if key in ChildrenOf(map[], init).0 {
          var j :| 0 <= j < |init| && Unhex0xOf(init[j].0) == Ok(key);
          assert children[j] == init[j];
        } else {
          assert Unhex0xOf(children[n].0) == Ok(key);
        }
      }
    }
  }

  predicate AllLoad(children: seq<(string, Tree)>) {
    forall i :: 0 <= i < |children| ==> TrieError(children[i]).None?
  }

  lemma LastTrie(children: seq<(string, Tree)>)
    requires children != []
    ensures AllLoad(children) <==> AllLoad(children[..|children| - 1]) && TrieError(children[|children| - 1]).None?
  {
    assert forall i :: 0 <= i < |children| - 1 ==> children[..|children| - 1][i] == children[i];
  }

  /** The child tries load exactly when nothing is wrong with any of them. */
  lemma {:induction false} TriesExact(start: map<ByteSeq, RawData>, children: seq<(string, Tree)>)
    ensures ChildrenOf(start, children).1.None? <==> AllLoad(children)
  {
    if children == [] {
    } else {
      TriesExact(start, children[..|children| - 1]);
      TrieStep(start, children);
      LastTrie(children);
    }
  }

  lemma TrieStep(start: map<ByteSeq, RawData>, children: seq<(string, Tree)>)
    requires children != []
    ensures var n := |children| - 1;
            ChildrenOf(start, children).1.None? <==>
            ChildrenOf(start, children[..n]).1.None? && TrieError(children[n]).None?
  {
  }

  // ---------------------------------------------------------------- where loading stops

  /** A key block that does not load stops at its first bad entry: the error is that entry's, and the entries
      before it, all of them, are what was read. */
  lemma BlockFails(children: seq<(string, Tree)>, i: nat)
    requires i < |children| && EntryOf(children[i]).Err?
    requires forall j :: 0 <= j < i ==> EntryOf(children[j]).Ok?
    ensures BlockOf(children) == (BlockOf(children[..i]).0, Some(EntryOf(children[i]).error))
    ensures var key, value := Unhex0xOf(children[i].0), Unhex0xOf(children[i].1.data);
            BlockOf(children).1 == Some(BadHex(if key.Err? then key.error else value.error))
    ensures BlockOf(children[..i]).1.None? && |BlockOf(children).0| == i
    ensures forall j :: 0 <= j < i ==> EntryOf(children[j]) == Ok(BlockOf(children).0[j])
  {
    BlockExact(children[..i]);
    assert children[..i + 1][..i] == children[..i];
    BlockStop(children, i + 1);
  }

  /** Child tries that do not all load stop at the first bad one: the error is what is wrong with it, and the
      tries before it, all of them, are what was loaded. */
  lemma TriesFail(start: map<ByteSeq, RawData>, children: seq<(string, Tree)>, i: nat)
    requires i < |children| && TrieError(children[i]).Some?
    requires forall j :: 0 <= j < i ==> TrieError(children[j]).None?
    ensures ChildrenOf(start, children) == (ChildrenOf(start, children[..i]).0, TrieError(children[i]))
    ensures var block, name := BlockOf(children[i].1.children).1, Unhex0xOf(children[i].0);
            ChildrenOf(start, children).1 == if block.Some? then block else Some(BadHex(name.error))
    ensures ChildrenOf(start, children[..i]).1.None?
  {
    TriesExact(start, children[..i]);
    assert children[..i + 1][..i] == children[..i];
    ChildrenStop(start, children, i + 1);
  }

  // ---------------------------------------------------------------- a printed specification loads back

  predicate DistinctKeys(tries: seq<(ByteSeq, RawData)>) {
    forall i, j :: 0 <= i < j < |tries| ==> tries[i].0 != tries[j].0
  }

  /** `m` holds the listed tries and nothing else. */
  ghost predicate Lists(m: map<ByteSeq, RawData>, tries: seq<(ByteSeq, RawData)>) {
    && (forall key :: key in m ==> exists i :: 0 <= i < |tries| && tries[i].0 == key)
    && (forall i :: 0 <= i < |tries| ==> tries[i].0 in m && m[tries[i].0] == tries[i].1)
  }

  function PrintedTries(tries: seq<(ByteSeq, RawData)>): seq<(string, Tree)> {
    seq(|tries|, i requires 0 <= i < |tries| => (HexOf(tries[i].0), Tree("", Printed(tries[i].1))))
  }

  function PrintedSpec(data: RawData, tries: seq<(ByteSeq, RawData)>): Tree {
    var raw := Tree("", [("top", Tree("", Printed(data))), ("childrenDefault", Tree("", PrintedTries(tries)))]);
    Tree("", [("genesis", Tree("", [("raw", raw)]))])
  }

  lemma PrintedTriesLoad(tries: seq<(ByteSeq, RawData)>)
    requires DistinctKeys(tries)
    ensures ChildrenOf(map[], PrintedTries(tries)).1.None? && Lists(ChildrenOf(map[], PrintedTries(tries)).0, tries)
  {
    var children := PrintedTries(tries);
    forall i | 0 <= i < |tries|
      ensures Unhex0xOf(children[i].0) == Ok(tries[i].0) && BlockOf(children[i].1.children) == (tries[i].1, None)
    {
      UnhexPrinted(tries[i].0);
      PrintedBlockLoads(tries[i].1);
    }
    TriesExact(map[], children);
    TrieKeysComeFromNames(children);
    forall i | 0 <= i < |tries|
      ensures var m := ChildrenOf(map[], children).0; tries[i].0 in m && m[tries[i].0] == tries[i].1
    {
      FirstTrieKept(children, i);
    }
  }

  /** Without a "top" entry the first child is taken for the top block, whatever its name and whatever comes
      after it. */
  lemma FirstChildIsTop(data: RawData, name: string, others: seq<(string, Tree)>)
    requires name != "top" && forall i :: 0 <= i < |others| ==> others[i].0 != "top"
    ensures var raw := Tree("", [(name, Tree("", Printed(data)))] + others);
            HasTop(raw) && BlockOf(Top(raw)) == (data, None)
  {
    var raw := Tree("", [(name, Tree("", Printed(data)))] + others);
    FirstNamedExact(raw.children, "top");
    PrintedBlockLoads(data);
  }

  /** The entry is missing exactly if there is no "genesis", or the first one has no "raw". */
  lemma MissingEntryIff(tree: Tree)
    ensures Raw(tree) == None <==>
            || (forall i :: 0 <= i < |tree.children| ==> tree.children[i].0 != "genesis")
            || exists i :: 0 <= i < |tree.children| && tree.children[i].0 == "genesis"
                           && (forall j :: 0 <= j < i ==> tree.children[j].0 != "genesis")
                           && forall k :: 0 <= k < |tree.children[i].1.children| ==>
                                tree.children[i].1.children[k].0 != "raw"
  {
    FirstNamedExact(tree.children, "genesis");
    var genesis := Child(tree, "genesis");
    if genesis.Some? {
      FirstNamedExact(genesis.value.children, "raw");
      var i :| 0 <= i < |tree.children| && tree.children[i] == ("genesis", genesis.value)
               && forall j :: 0 <= j < i ==> tree.children[j].0 != "genesis";
      forall k | 0 <= k < |tree.children| && tree.children[k].0 == "genesis"
                 && (forall j :: 0 <= j < k ==> tree.children[j].0 != "genesis")
        ensures k == i
      {
        if k < i {
        } else if i < k {
        }
      }
    }
  }

  lemma PrintedSpecParts(data: RawData, tries: seq<(ByteSeq, RawData)>)
    ensures Raw(PrintedSpec(data, tries)).Some? && HasTop(Raw(PrintedSpec(data, tries)).value)
    ensures Top(Raw(PrintedSpec(data, tries)).value) == Printed(data)
    ensures Tries(Raw(PrintedSpec(data, tries)).value) == PrintedTries(tries)
  {
    var tree := PrintedSpec(data, tries);
    var g := tree.children[0].1;
    assert Child(tree, "genesis") == Some(g);
    var raw := g.children[0].1;
    assert Child(g, "raw") == Some(raw);
    assert Child(raw, "top") == Some(raw.children[0].1);
    assert raw.children[1..][0] == raw.children[1];
    assert Child(raw, "childrenDefault") == FirstNamed(raw.children[1..], "childrenDefault");
  }

  /** Loading into a fresh specification. Any genesis printed with any child tries of distinct keys loads as
      exactly that genesis and those tries. */
  method LoadFresh(tree: Tree) returns (spec: Spec, r: Checked<Option<LoadError>>)
    ensures fresh(spec)
    ensures forall data, tries :: tree == PrintedSpec(data, tries) && DistinctKeys(tries) ==>
              r == Returned(None) && spec.genesis == data && Lists(spec.childrenDefault, tries)
  {
    spec := new Spec();
    r := spec.LoadGenesis(tree);
    forall data, tries | tree == PrintedSpec(data, tries) && DistinctKeys(tries)
      ensures r == Returned(None) && spec.genesis == data && Lists(spec.childrenDefault, tries)
    {
      PrintedSpecParts(data, tries);
      PrintedTriesLoad(tries);
      PrintedBlockLoads(data);
    }
  }

  // ---------------------------------------------------------------- the genesis runtime

  /** ":code" printed, as the program compares it. */
  const CODE_HEX := "0x3a636f6465"

  const CODE_KEY: ByteSeq := [0x3a, 0x63, 0x6f, 0x64, 0x65]

  lemma CodeKeyPrints()
    ensures HexOf(CODE_KEY) == CODE_HEX
    ensures |CODE_KEY| == |":code"| && forall i :: 0 <= i < |CODE_KEY| ==> CODE_KEY[i] == ":code"[i] as int
  {
    assert CODE_KEY[1..] == [0x63, 0x6f, 0x64, 0x65] && CODE_KEY[1..][1..] == [0x6f, 0x64, 0x65];
    assert Digits([0x65]) == "65";
    assert Digits([0x64, 0x65]) == "64" + Digits([0x65]);
    assert Digits([0x6f, 0x64, 0x65]) == "6f" + Digits([0x64, 0x65]);
    assert Digits([0x63, 0x6f, 0x64, 0x65]) == "63" + Digits([0x6f, 0x64, 0x65]);
    assert Digits(CODE_KEY) == "3a" + Digits([0x63, 0x6f, 0x64, 0x65]);
  }

  /** Searches the genesis for the runtime: the value of the first entry whose key is exactly ":code"; none
      is found exactly when no entry has that key. */
  method FindGenesisRuntime(genesis: RawData) returns (r: Option<ByteSeq>)
    ensures r.Some? <==> exists i :: 0 <= i < |genesis| && genesis[i].0 == CODE_KEY
    ensures r.Some? ==> exists i :: 0 <= i < |genesis| && genesis[i] == (CODE_KEY, r.value) &&
                                    forall j :: 0 <= j < i ==> genesis[j].0 != CODE_KEY
  {
    CodeKeyPrints();
    var i := 0;
    while i < |genesis|
      invariant i <= |genesis|
      invariant forall j :: 0 <= j < i ==> genesis[j].0 != CODE_KEY
    {
      var (key, value) := genesis[i];
      var str := ToHex(key);
      if str == CODE_HEX {
        HexInjective(key, CODE_KEY);
        return Some(value);
      }
      i := i + 1;
    }
    return None;
  }

  // ---------------------------------------------------------------- block ids

  datatype BlockId = HashId(hash: ByteSeq) | NumberId(number: nat)

  const NUMBER_LIMIT := 0x1_0000_0000

  predicate IsDigit(c: char) {
    '0' <= c <= '9'
  }

  predicate AllDigits(s: string) {
    forall i :: 0 <= i < |s| ==> IsDigit(s[i])
  }

  function DecimalValue(s: string): nat
    requires AllDigits(s)
  {
    if s == [] then 0 else 10 * DecimalValue(s[..|s| - 1]) + (s[|s| - 1] as int - '0' as int)
  }

  /** How many digits `s` starts with. */
  function RunLength(s: string): (k: nat)
    ensures k <= |s| && AllDigits(s[..k])
    ensures k < |s| ==> !IsDigit(s[k])
  {
    if s == [] || !IsDigit(s[0]) then 0
    else
      var k := RunLength(s[1..]);
      assert s[..1 + k] == [s[0]] + s[1..][..k];
      1 + k
  }

  function BlockIdOf(s: string): Checked<Result<BlockId, LoadError>> {
    if "0x" <= s then
      match BlockHashOf(s)
      case OutOfBounds => OutOfBounds
      case Returned(Err(e)) => Returned(Err(BadHex(e)))
      case Returned(Ok(hash)) => Returned(Ok(HashId(hash)))
    else
      var digits := s[..RunLength(s)];
      if digits == [] || DecimalValue(digits) >= NUMBER_LIMIT then Returned(Err(ParserError))
      else Returned(Ok(NumberId(DecimalValue(digits))))
  }

  /** Block ids are hashes in hex or decimal numbers; anything after a number's digits is ignored. */
  method ParseBlockId(s: string) returns (r: Checked<Result<BlockId, LoadError>>)
    ensures r == BlockIdOf(s)
  {
    if "0x" <= s {
      var hash := UnhexWith0xToBlockHash(s);
      match hash {
        case OutOfBounds => return OutOfBounds;
        case Returned(Err(e)) => return Returned(Err(BadHex(e)));
        case Returned(Ok(bytes)) => return Returned(Ok(HashId(bytes)));
      }
    }
    var number, k := FromChars(s);
    if k == 0 || number >= NUMBER_LIMIT {
      return Returned(Err(ParserError));
    }
    return Returned(Ok(NumberId(number)));
  }

  /** Reads digits as long as there are any. */
  method FromChars(s: string) returns (number: nat, k: nat)
    ensures k == RunLength(s) && number == DecimalValue(s[..k])
  {
    number, k := 0, 0;
    assert s[0..] == s;
    while k < |s| && IsDigit(s[k])
      invariant k <= |s| && AllDigits(s[..k]) && number == DecimalValue(s[..k])
      invariant RunLength(s) == k + RunLength(s[k..])
    {
      RunStep(s, k);
      number := 10 * number + (s[k] as int - '0' as int);
      k := k + 1;
    }
  }

  lemma RunStep(s: string, k: nat)
    requires k < |s| && IsDigit(s[k]) && AllDigits(s[..k])
    ensures AllDigits(s[..k + 1])
    ensures DecimalValue(s[..k + 1]) == 10 * DecimalValue(s[..k]) + (s[k] as int - '0' as int)
    ensures RunLength(s[k..]) == 1 + RunLength(s[k + 1..])
  {
    assert s[..k + 1][..k] == s[..k] && s[k..][1..] == s[k + 1..];
  }

  /** With the hex prefix, the result is a hash exactly if the text is, up to case, what some bytes print as, and
      there are enough of them; otherwise it says what is wrong with the text. */
  lemma HashIdExact(s: string, hash: ByteSeq)
    requires "0x" <= s
    ensures BlockIdOf(s) == Returned(Ok(HashId(hash))) <==>
            |hash| == 32 && exists v :: hash <= v && Lower(s) == HexOf(v)
    ensures BlockIdOf(s) == OutOfBounds <==> exists v :: |v| < 32 && Lower(s) == HexOf(v)
    ensures BlockIdOf(s) == Returned(Err(BadHex(NonHexInput))) <==> exists i :: 2 <= i < |s| && !IsHex(s[i])
    ensures BlockIdOf(s) == Returned(Err(BadHex(NotEnoughInput))) <==>
            |s| % 2 == 1 && forall i :: 2 <= i < |s| ==> IsHex(s[i])
  {
    HashErrors(s);
    if Unhex0xOf(s).Ok? {
      UnhexExact(s, Unhex0xOf(s).value);
    }
    if BlockIdOf(s) == Returned(Ok(HashId(hash))) {
      assert hash <= Unhex0xOf(s).value;
    }
    forall v | Lower(s) == HexOf(v)
      ensures Unhex0xOf(s) == Ok(v) && (|hash| == 32 && hash <= v ==> v[..32] == hash)
    {
      UnhexExact(s, v);
    }
  }

  lemma HashErrors(s: string)
    requires "0x" <= s
    ensures Unhex0xOf(s) == Err(NonHexInput) <==> exists i :: 2 <= i < |s| && !IsHex(s[i])
    ensures Unhex0xOf(s) == Err(NotEnoughInput) <==> |s| % 2 == 1 && forall i :: 2 <= i < |s| ==> IsHex(s[i])
  {
    assert forall i :: 2 <= i < |s| ==> s[i] == s[2..][i - 2];
    assert forall i :: 0 <= i < |s[2..]| ==> s[2..][i] == s[i + 2];
  }

  /** A digit in front counts as many tens of tens as there are digits after it. */
  lemma {:induction false} LeadingDigit(d: char, s: string)
    requires IsDigit(d) && AllDigits(s)
    ensures AllDigits([d] + s)
    ensures DecimalValue([d] + s) == (d as int - '0' as int) * Pow10(|s|) + DecimalValue(s)
  {
    if s == [] {
      assert ([d] + s)[..0] == [];
    } else {
      var init := s[..|s| - 1];
      LeadingDigit(d, init);
      LastDigit([d] + init, s[|s| - 1]);
      LastDigit(init, s[|s| - 1]);
      assert [d] + s == ([d] + init) + [s[|s| - 1]] && s == init + [s[|s| - 1]];
      Shift(d as int - '0' as int, Pow10(|init|), DecimalValue(init), s[|s| - 1] as int - '0' as int);
    }
  }

  lemma LastDigit(s: string, d: char)
    requires AllDigits(s) && IsDigit(d)
    ensures AllDigits(s + [d]) && DecimalValue(s + [d]) == 10 * DecimalValue(s) + (d as int - '0' as int)
  {
    assert (s + [d])[..|s|] == s;
  }

  lemma Shift(digit: nat, power: nat, value: nat, last: nat)
    ensures 10 * (digit * power + value) + last == digit * (10 * power) + (10 * value + last)
  {
  }

  function Pow10(k: nat): nat {
    if k == 0 then 1 else 10 * Pow10(k - 1)
  }

  /** Without the hex prefix, the result is `n` exactly when the text splits into a non-empty run of digits of
      value `n`, below 2^32, and a remainder that does not go on with a digit. */
  lemma NumberIdExact(s: string, n: nat)
    requires !("0x" <= s)
    ensures BlockIdOf(s) == Returned(Ok(NumberId(n))) <==>
            exists k :: 0 < k <= |s| && AllDigits(s[..k]) && (k < |s| ==> !IsDigit(s[k])) &&
                        DecimalValue(s[..k]) == n && n < 0x1_0000_0000
    ensures BlockIdOf(s) == Returned(Err(ParserError)) || (BlockIdOf(s).Returned? && BlockIdOf(s).value.Ok?)
  {
    forall k | 0 < k <= |s| && AllDigits(s[..k]) && (k < |s| ==> !IsDigit(s[k]))
      ensures k == RunLength(s)
    {
      var longest := RunLength(s);
      assert forall i :: 0 <= i < k ==> s[..k][i] == s[i];
      assert forall i :: 0 <= i < longest ==> s[..longest][i] == s[i];
    }
  }

  function Decimal(n: nat): (s: string)
    ensures s != []
  {
    if n < 10 then [(n + '0' as int) as char] else Decimal(n / 10) + [(n % 10 + '0' as int) as char]
  }

  lemma {:induction false} DecimalRoundTrip(n: nat)
    ensures AllDigits(Decimal(n)) && DecimalValue(Decimal(n)) == n
  {
    if n >= 10 {
      DecimalRoundTrip(n / 10);
      var s := Decimal(n);
      assert s[..|s| - 1] == Decimal(n / 10);
    } else {
      assert Decimal(n)[..0] == [];
    }
  }

  /** Every 32-bit number's decimal form parses back to it. */
  lemma NumbersRoundTrip(n: nat)
    requires n < 0x1_0000_0000
    ensures BlockIdOf(Decimal(n)) == Returned(Ok(NumberId(n)))
  {
    var s := Decimal(n);
    DecimalRoundTrip(n);
    assert s[..|s|] == s && RunLength(s) == |s|;
    if |s| > 1 {
      assert IsDigit(s[1]) && s[1] != 'x';
    }
  }

  /** Every 32-byte hash printed in hex parses back to it. */
  lemma HashesRoundTrip(hash: ByteSeq)
    requires |hash| == 32
    ensures BlockIdOf(HexOf(hash)) == Returned(Ok(HashId(hash)))
  {
    UnhexPrinted(hash);
    assert hash[..32] == hash;
  }
}
