/**
 * The parser's control flow around the native parse: the shortcut for an
 * up-to-date tree, the cancellation flag the native parser polls, the
 * reset after every native parse, and the release of a tree whose parse
 * was cancelled.
 *
 * What the native parse does is not part of this model: whether it
 * produces a tree, the root it builds, and whether the token is cancelled
 * while it runs are parameters of `Parse`.
 */
module TSParser {
  import opened Wrappers
  import opened SubtreeAccess
  import opened TSTree

  /** The native calls a parser makes, in order. */
  datatype NativeCall = ParseCall(oldTree: Ptr, flag: int) | ParserReset | ReleaseCall(tree: Ptr)

  /** A one-shot cancellation token with a single handler. */
  class CancellationToken {
    var cancelled: bool
    var handler: Option<Parser>

    constructor ()
      ensures !cancelled && handler.None?
    {
      cancelled := false;
      handler := None;
    }

    method OnCancel(p: Parser)
      modifies this
      ensures handler == Some(p) && cancelled == old(cancelled)
    {
      handler := Some(p);
    }

    /** Cancels once; the first cancellation runs the handler, which raises its parser's flag. */
    method Cancel()
      modifies this, if handler.Some? then {handler.value} else {}
      ensures cancelled && handler == old(handler)
      ensures !old(cancelled) && handler.Some? ==>
        handler.value.flag == 1 && handler.value.log == old(handler.value.log)
      ensures old(cancelled) && handler.Some? ==> unchanged(handler.value)
    {
      if !cancelled {
        cancelled := true;
        if handler.Some? {
          handler.value.flag := 1;
        }
      }
    }
  }

  class Parser {
    const parserPtr: Ptr
    const language: Ptr
    const native: NativeTrees
    /** The cancellation flag cell the native parser polls. */
    var flag: int
    /** The native calls made so far. */
    var log: seq<NativeCall>

    constructor (parserPtr: Ptr, language: Ptr, native: NativeTrees)
      ensures this.parserPtr == parserPtr && this.language == language && this.native == native
      ensures flag == 0 && log == []
    {
      this.parserPtr := parserPtr;
      this.language := language;
      this.native := native;
      flag := 0;
      log := [];
    }

    /**
     * Parses unless the adjusted tree is already up to date. The flag is
     * cleared and the token's handler set; a token already cancelled
     * returns nothing without a native parse. Otherwise the native parse
     * runs on the flag as it stands, and the parser is reset whatever the
     * outcome. No tree: nothing. Cancelled meanwhile: the new tree is
     * released and nothing is returned. Else the new tree, up to date.
     */
    method Parse(adjusted: Option<Tree>, token: Option<CancellationToken>,
                 produced: bool, root: Ptr, cancelledDuringParse: bool) returns (r: Option<Tree>)
      requires native.Valid() && native.nextPtr < 0x7FFF_FFFF_FFFF_FFFF
      modifies this, native, if token.Some? then {token.value} else {}
      ensures native.Valid()
      ensures adjusted.Some? && adjusted.value.actual ==>
        r == adjusted && flag == old(flag) && log == old(log) &&
        native.trees == old(native.trees) && (token.Some? ==> unchanged(token.value))
      ensures !(adjusted.Some? && adjusted.value.actual) && token.Some? && old(token.value.cancelled) ==>
        r.None? && flag == 0 && log == old(log) && native.trees == old(native.trees)
      ensures !(adjusted.Some? && adjusted.value.actual) && !(token.Some? && old(token.value.cancelled)) ==>
        var oldTree := if adjusted.Some? then adjusted.value.treePtr else 0;
        var called := old(log) + [ParseCall(oldTree, 0), ParserReset];
        var observed := token.Some? && cancelledDuringParse;
        if !produced then
          r.None? && log == called && native.trees == old(native.trees)
        else if observed then
          r.None? && flag == 1 && |log| == |called| + 1 && log[..|called|] == called &&
          log[|called|].ReleaseCall? && native.trees == old(native.trees)
        else
          r.Some? && log == called &&
          r.value.treePtr !in old(native.trees) &&
          native.trees == old(native.trees)[r.value.treePtr := NativeTree(root, [])] &&
          r.value == Tree(r.value.treePtr, Handle(language, root, TreeResource(r.value.treePtr)), true)
    {
      if adjusted.Some? && adjusted.value.actual {
        return adjusted;
      }
      flag := 0;
      if token.Some? {
        token.value.OnCancel(this);
      }
      if token.Some? && token.value.cancelled {
        return None;
      }
      var oldTree := if adjusted.Some? then adjusted.value.treePtr else 0;
      log := log + [ParseCall(oldTree, flag)];
      var newTree := 0;
      if produced {
        newTree := native.NewTree(root);
      }
      if token.Some? && cancelledDuringParse {
        token.value.Cancel();
      }
      log := log + [ParserReset];
      if newTree == 0 {
        return None;
      }
      if token.Some? && token.value.cancelled {
        native.ReleaseTree(newTree);
        log := log + [ReleaseCall(newTree)];
        return None;
      }
      r := Some(Tree(newTree, Handle(language, native.trees[newTree].root, TreeResource(newTree)), true));
    }
  }
}
