/** `ArrayTokenSource`: a cursor over a fixed array of tokens, with an
    optional array of their locations, that reads EOF just past the end. */
module TokenSources {
  import opened Wrappers
  import opened Symbols
  import opened ParseNodes

  /** The context string, the tokens, the locations (`null` when absent,
      and each of them possibly `null`) and the cursor. */
  datatype ArraySource = ArraySource(
    context: string,
    tokens: seq<Terminal>,
    locations: Option<seq<Option<SourcePos>>>,
    curPos: nat)

  /** The constructor: the cursor starts at the first token. */
  function Make(context: string, tokens: seq<Terminal>, locations: Option<seq<Option<SourcePos>>>): (src: ArraySource)
    ensures src.curPos == 0 && src.context == context && src.tokens == tokens && src.locations == locations
  {
    ArraySource(context, tokens, locations, 0)
  }

  /** `getContext`: the constructor's context string. */
  function GetContext(src: ArraySource): string {
    src.context
  }

  /** The context string is the constructor's, whatever the cursor does. */
  lemma ContextKept(context: string, tokens: seq<Terminal>, locations: Option<seq<Option<SourcePos>>>, k: nat)
    ensures var src := Advance(Make(context, tokens, locations), k);
      GetContext(src) == context && GetContext(Next(src)) == context && GetContext(Rewind(src)) == context
  {
    AdvanceCursor(Make(context, tokens, locations), k);
  }

  /** `curToken`: the token under the cursor, EOF one past the end, and a
      failure beyond that. */
  function CurToken(src: ArraySource): (r: Result<Terminal>)
    ensures r.Ok? <==> src.curPos <= |src.tokens|
    ensures r.Ok? && src.curPos < |src.tokens| ==> r.value == src.tokens[src.curPos]
    ensures r.Ok? && src.curPos == |src.tokens| ==> r.value == Eof
  {
    if src.curPos < |src.tokens| then Ok(src.tokens[src.curPos])
    else if src.curPos == |src.tokens| then Ok(Eof)
    else Err("RuntimeException")
  }

  /** `curTokenPos`: a fresh default span when there are no locations,
      otherwise the token's location, `null` at EOF and a failure beyond
      (a location array shorter than the tokens fails its index). */
  function CurTokenPos(src: ArraySource): (r: Result<Option<SourcePos>>)
    ensures src.locations.None? ==> r == Ok(Some(DefaultPos))
    ensures src.locations.Some? ==>
      (r.Ok? <==> src.curPos == |src.tokens| || (src.curPos < |src.tokens| && src.curPos < |src.locations.value|))
    ensures src.locations.Some? && r.Ok? ==>
      r.value == (if src.curPos < |src.tokens| then src.locations.value[src.curPos] else None)
  {
    match src.locations
    case None => Ok(Some(DefaultPos))
    case Some(locs) =>
      if src.curPos < |src.tokens| then
        if src.curPos < |locs| then Ok(locs[src.curPos]) else Err("ArrayIndexOutOfBoundsException")
      else if src.curPos == |src.tokens| then Ok(None)
      else Err("RuntimeException")
  }

  /** `next`: the cursor moves on by one; nothing else changes. */
  function Next(src: ArraySource): (r: ArraySource)
    ensures r.curPos == src.curPos + 1
    ensures r.(curPos := src.curPos) == src
  {
    src.(curPos := src.curPos + 1)
  }

  /** `rewind`: the cursor goes back to the first token. */
  function Rewind(src: ArraySource): (r: ArraySource)
    ensures r.curPos == 0
    ensures r.(curPos := src.curPos) == src
  {
    src.(curPos := 0)
  }

  /** `k` calls of `next`. */
  function Advance(src: ArraySource, k: nat): ArraySource {
    if k == 0 then src else Next(Advance(src, k - 1))
  }

  /** After `k` calls of `next` the cursor is `k` further on. */
  lemma {:induction false} AdvanceCursor(src: ArraySource, k: nat)
    ensures Advance(src, k) == src.(curPos := src.curPos + k)
  {
    if k > 0 {
      AdvanceCursor(src, k - 1);
    }
  }

  /** The `k`-th token read after a rewind, whatever was read before: the
      sequence replays identically, ending with EOF. */
  lemma Replay(src: ArraySource, before: nat, k: nat)
    ensures CurToken(Advance(Rewind(Advance(src, before)), k)) ==
      (if k < |src.tokens| then Ok(src.tokens[k]) else if k == |src.tokens| then Ok(Eof) else Err("RuntimeException"))
  {
    AdvanceCursor(src, before);
    AdvanceCursor(Rewind(Advance(src, before)), k);
  }
}
