/**
 * The node-type registry of a language: node types by name (`registry`) and
 * the memoised node type of each symbol (`nodeTypesCache`). The native
 * symbol-name, terminal and by-name lookups are functions the language is
 * built with.
 */
module TSLanguage {
  import opened Wrappers
  import opened SubtreeAccess
  import opened Memory

  /** A node type: its name never changes; its symbol is resolved lazily. */
  class NodeType {
    const name: string
    /** Built as a `Terminal`. */
    const terminal: bool
    var id: int
    var initialized: bool

    constructor (name: string, terminal: bool)
      ensures this.name == name && this.terminal == terminal && id == -1 && !initialized
    {
      this.name := name;
      this.terminal := terminal;
      id := -1;
      initialized := false;
    }

    /** The `Error` sentinel: already initialized with symbol -1. */
    constructor Error()
      ensures name == "ERROR" && !terminal && id == -1 && initialized
    {
      name := "ERROR";
      terminal := false;
      id := -1;
      initialized := true;
    }
  }

  class Language {
    const languagePtr: Ptr
    /** The native symbol name, terminal test and by-name lookup of this language. */
    const symbolName: int -> string
    const isTerminal: int -> bool
    const symbolByName: string -> int
    const error: NodeType
    var registry: map<string, NodeType>
    var nodeTypesCache: map<int, NodeType>

    /**
     * Each registry entry is filed under its own name; a cached node type
     * is the sentinel for symbol -1 and otherwise carries its symbol's name.
     */
    predicate Valid()
      reads this
    {
      (forall name :: name in registry ==> registry[name].name == name) &&
      (forall symbol :: symbol in nodeTypesCache ==>
        if symbol == -1 then nodeTypesCache[symbol] == error
        else nodeTypesCache[symbol].name == symbolName(symbol))
    }

    /** `error` is the process-wide `Error` object, which every language shares. */
    constructor (languagePtr: Ptr, symbolName: int -> string, isTerminal: int -> bool,
                 symbolByName: string -> int, error: NodeType)
      requires error.name == "ERROR" && !error.terminal && error.id == -1 && error.initialized
      ensures Valid() && registry == map[] && nodeTypesCache == map[]
      ensures this.languagePtr == languagePtr && this.symbolName == symbolName
      ensures this.isTerminal == isTerminal && this.symbolByName == symbolByName && this.error == error
    {
      this.languagePtr := languagePtr;
      this.symbolName := symbolName;
      this.isTerminal := isTerminal;
      this.symbolByName := symbolByName;
      this.error := error;
      registry := map[];
      nodeTypesCache := map[];
    }

    /**
     * The node type of a symbol, memoised. Symbol -1 is the `Error`
     * sentinel, with no lookup and no registry entry. Otherwise the type
     * registered under the symbol's name is reused, or a fresh one (a
     * terminal when the symbol is one) is registered; either way its id
     * becomes the symbol.
     */
    method GetNodeType(symbol: int) returns (t: NodeType)
      requires Valid()
      modifies this, registry.Values
      ensures Valid()
      ensures symbol in old(nodeTypesCache) ==>
        t == old(nodeTypesCache)[symbol] &&
        registry == old(registry) && nodeTypesCache == old(nodeTypesCache) &&
        forall n :: n in old(registry.Values) ==> n.id == old(n.id) && n.initialized == old(n.initialized)
      ensures symbol !in old(nodeTypesCache) && symbol == -1 ==>
        t == error && registry == old(registry) && nodeTypesCache == old(nodeTypesCache)[symbol := t] &&
        forall n :: n in old(registry.Values) ==> n.id == old(n.id) && n.initialized == old(n.initialized)
      ensures symbol !in old(nodeTypesCache) && symbol != -1 ==>
        var name := symbolName(symbol);
        (name in old(registry) ==> t == old(registry)[name]) &&
        (name !in old(registry) ==> fresh(t) && t.terminal == isTerminal(symbol) && !t.initialized) &&
        t.name == name && t.id == symbol &&
        registry == old(registry)[name := t] && nodeTypesCache == old(nodeTypesCache)[symbol := t] &&
        (forall n :: n in old(registry.Values) && n != t ==> n.id == old(n.id)) &&
        forall n :: n in old(registry.Values) ==> n.initialized == old(n.initialized)
    {
      if symbol in nodeTypesCache {
        return nodeTypesCache[symbol];
      }
      if symbol == -1 {
        t := error;
      } else {
        var name := symbolName(symbol);
        if name in registry {
          t := registry[name];
        } else {
          t := new NodeType(name, isTerminal(symbol));
          registry := registry[name := t];
        }
        t.id := symbol;
      }
      nodeTypesCache := nodeTypesCache[symbol := t];
    }

    /**
     * The symbol of a node type: its id once initialized; otherwise looked
     * up by name once, after which the type is initialized.
     */
    method GetNodeTypeSymbol(t: NodeType) returns (symbol: int)
      modifies t
      ensures old(t.initialized) ==> symbol == old(t.id) && t.id == old(t.id) && t.initialized
      ensures !old(t.initialized) ==> symbol == symbolByName(t.name) && t.id == symbol && t.initialized
    {
      if t.initialized {
        symbol := t.id;
      } else {
        symbol := symbolByName(t.name);
        t.id := symbol;
        t.initialized := true;
      }
    }

    /** The type registered under `name`; absent names fail. */
    function NodeTypeNamed(name: string): (r: Option<NodeType>)
      reads this
      ensures r.Some? <==> name in registry
      ensures r.Some? ==> r.value == registry[name]
    {
      if name in registry then Some(registry[name]) else None
    }

    /** Files `t` under its name, replacing whatever was there. */
    method Register(t: NodeType)
      requires Valid()
      modifies this
      ensures Valid()
      ensures registry == old(registry)[t.name := t] && nodeTypesCache == old(nodeTypesCache)
      ensures forall name :: name != t.name ==> NodeTypeNamed(name) == old(NodeTypeNamed(name))
      ensures NodeTypeNamed(t.name) == Some(t)
    {
      registry := registry[t.name := t];
    }

    /** The node type of the node in slot `subtree`: its symbol's memoised type. */
    method NodeTypeOf(mem: Heap, subtree: Ptr) returns (t: NodeType)
      requires Valid() && HeapField(mem, subtree, SymbolOffset, 2)
      modifies this, registry.Values
      ensures Valid() && SubtreeNodeType(mem, subtree) in nodeTypesCache
      ensures t == nodeTypesCache[SubtreeNodeType(mem, subtree)] && t.name == symbolName(SubtreeNodeType(mem, subtree))
    {
      t := GetNodeType(SubtreeNodeType(mem, subtree));
    }
  }

  /** A second lookup of the same symbol returns the same object. */
  method GetNodeTypeTwice(lang: Language, symbol: int) returns (first: NodeType, second: NodeType)
    requires lang.Valid()
    modifies lang, lang.registry.Values
    ensures first == second && lang.Valid()
  {
    first := lang.GetNodeType(symbol);
    second := lang.GetNodeType(symbol);
  }

  /** The sentinel's symbol is -1 without a lookup. */
  method ErrorSymbol(lang: Language) returns (symbol: int)
    ensures symbol == -1
  {
    var error := new NodeType.Error();
    symbol := lang.GetNodeTypeSymbol(error);
  }
}
