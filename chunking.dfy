/**
 * How the balance reports are cut into Telegram messages. A report is a
 * header, one line per wallet and a closing total line; the texts are
 * abstract and only their lengths and their order matter. Two handlers cut
 * differently:
 *   - `balance_handler` places the total line like any other piece (it opens
 *     a new message when it would push the current one past the threshold);
 *   - `total_balance_handler` appends the total line to the last message
 *     without looking at its length.
 */
module Chunking {

  /** The length threshold both handlers test against (characters). */
  const Limit: nat := 4000

  function Concat(pieces: seq<string>): string {
    if pieces == [] then [] else Concat(pieces[..|pieces| - 1]) + pieces[|pieces| - 1]
  }

  predicate AllWithin(pieces: seq<string>, bound: nat) {
    forall i :: 0 <= i < |pieces| ==> |pieces[i]| <= bound
  }

  function Last(chunks: seq<string>): string
    requires chunks != []
  {
    chunks[|chunks| - 1]
  }

  /**
   * One step of both loops: the piece joins the last message unless that
   * would make it longer than `Limit`, in which case it starts a new message.
   */
  function Place(chunks: seq<string>, piece: string): (r: seq<string>)
    requires chunks != []
  {
    if |Last(chunks)| + |piece| > Limit then chunks + [piece]
    else chunks[..|chunks| - 1] + [Last(chunks) + piece]
  }

  /** Every piece placed in order. */
  function PlaceAll(chunks: seq<string>, pieces: seq<string>): (r: seq<string>)
    requires chunks != []
    ensures |r| >= |chunks|
  {
    if pieces == [] then chunks
    else Place(PlaceAll(chunks, pieces[..|pieces| - 1]), pieces[|pieces| - 1])
  }

  /** The messages of `balance_handler`. */
  function BalanceChunks(header: string, lines: seq<string>, total: string): seq<string> {
    Place(PlaceAll([header], lines), total)
  }

  /** The messages of `total_balance_handler`. */
  function TotalChunks(header: string, lines: seq<string>, total: string): (r: seq<string>)
    ensures r != []
  {
    var chunks := PlaceAll([header], lines);
    chunks[..|chunks| - 1] + [Last(chunks) + total]
  }

  lemma ConcatAppend(pieces: seq<string>, piece: string)
    ensures Concat(pieces + [piece]) == Concat(pieces) + piece
  {
    assert (pieces + [piece])[..|pieces|] == pieces;
  }

  /**
   * Associativity of `+`, as a separate lemma: the solver finds it at once
   * here but not inside the context of the lemmas about `Concat`.
   */
  lemma AppendAssoc(a: string, b: string, c: string)
    ensures a + (b + c) == (a + b) + c
  {
  }

  /** Replacing the last message by a longer one extends the concatenation likewise. */
  lemma ConcatExtendLast(chunks: seq<string>, piece: string)
    requires chunks != []
    ensures Concat(chunks[..|chunks| - 1] + [Last(chunks) + piece]) == Concat(chunks) + piece
  {
    var init := chunks[..|chunks| - 1];
    var last := chunks[|chunks| - 1];
    ConcatAppend(init, last + piece);
    AppendAssoc(Concat(init), last, piece);
  }

  lemma PlaceConcat(chunks: seq<string>, piece: string)
    requires chunks != []
    ensures Concat(Place(chunks, piece)) == Concat(chunks) + piece
  {
    if |Last(chunks)| + |piece| > Limit {
      ConcatAppend(chunks, piece);
    } else {
      ConcatExtendLast(chunks, piece);
    }
  }

  /** Placing pieces neither loses, duplicates nor reorders text. */
  lemma {:induction false} PlaceAllConcat(chunks: seq<string>, pieces: seq<string>)
    requires chunks != []
    ensures Concat(PlaceAll(chunks, pieces)) == Concat(chunks) + Concat(pieces)
  {
    if pieces != [] {
      var init := pieces[..|pieces| - 1];
      PlaceAllConcat(chunks, init);
      PlaceConcat(PlaceAll(chunks, init), pieces[|pieces| - 1]);
    }
  }

  /** Messages already sealed stay as they are; the open one only grows at its end. */
  lemma {:induction false} PlaceAllKeepsEarlier(chunks: seq<string>, pieces: seq<string>)
    requires chunks != []
    ensures PlaceAll(chunks, pieces)[..|chunks| - 1] == chunks[..|chunks| - 1]
    ensures Last(chunks) <= PlaceAll(chunks, pieces)[|chunks| - 1]
  {
    if pieces != [] {
      var init := pieces[..|pieces| - 1];
      PlaceAllKeepsEarlier(chunks, init);
    }
  }

  /** With pieces within the threshold, no message exceeds it. */
  lemma {:induction false} PlaceAllWithin(chunks: seq<string>, pieces: seq<string>)
    requires chunks != []
    requires AllWithin(chunks, Limit) && AllWithin(pieces, Limit)
    ensures AllWithin(PlaceAll(chunks, pieces), Limit)
  {
    if pieces != [] {
      var init := pieces[..|pieces| - 1];
      PlaceAllWithin(chunks, init);
    }
  }

  /** Text that fits together is never split: it all joins the open message. */
  lemma {:induction false} PlaceAllFits(chunks: seq<string>, pieces: seq<string>)
    requires chunks != []
    requires |Last(chunks)| + |Concat(pieces)| <= Limit
    ensures PlaceAll(chunks, pieces) == chunks[..|chunks| - 1] + [Last(chunks) + Concat(pieces)]
  {
    if pieces == [] {
      assert Last(chunks) + Concat(pieces) == Last(chunks);
      assert chunks == chunks[..|chunks| - 1] + [Last(chunks)];
    } else {
      var init := pieces[..|pieces| - 1];
      var piece := pieces[|pieces| - 1];
      assert |Concat(pieces)| == |Concat(init)| + |piece|;
      PlaceAllFits(chunks, init);
      var placed := PlaceAll(chunks, init);
      assert Last(placed) == Last(chunks) + Concat(init);
      assert placed[..|placed| - 1] == chunks[..|chunks| - 1];
      assert Last(chunks) + Concat(init) + piece == Last(chunks) + Concat(pieces);
    }
  }

  // ---------------------------------------------------------------------
  // The two loops as the handlers write them

  /**
   * `balance_handler` (bot.py): the list starts as `[header]`; a line that
   * does not fit opens a new message `""` and is appended to it; the total
   * line is either appended or becomes a message of its own.
   */
  method BalanceMessages(header: string, lines: seq<string>, total: string) returns (messages: seq<string>)
    ensures messages == BalanceChunks(header, lines, total)
    ensures messages != [] && header <= messages[0]
    ensures Concat(messages) == header + Concat(lines) + total
    ensures |header| <= Limit && AllWithin(lines, Limit) && |total| <= Limit ==> AllWithin(messages, Limit)
    ensures |header| + |Concat(lines)| + |total| <= Limit ==> messages == [header + Concat(lines) + total]
  {
    messages := [header];
    var i := 0;
    while i < |lines|
      invariant 0 <= i <= |lines|
      invariant messages == PlaceAll([header], lines[..i])
    {
      var walletInfo := lines[i];
      ghost var before := messages;
      if |messages[|messages| - 1]| + |walletInfo| > Limit {
        messages := messages + [""];
        assert messages[..|messages| - 1] == before;
        assert "" + walletInfo == walletInfo;
      }
      messages := messages[..|messages| - 1] + [messages[|messages| - 1] + walletInfo];
      assert messages == Place(before, walletInfo);
      assert lines[..i + 1][..i] == lines[..i];
      assert PlaceAll([header], lines[..i + 1]) == Place(PlaceAll([header], lines[..i]), walletInfo);
      i := i + 1;
    }
    assert lines[..i] == lines;
    ghost var placed := messages;
    if |messages[|messages| - 1]| + |total| > Limit {
      messages := messages + [total];
    } else {
      messages := messages[..|messages| - 1] + [messages[|messages| - 1] + total];
    }
    assert messages == Place(placed, total);
    BalanceChunksHeader(header, lines, total);
    BalanceChunksConcat(header, lines, total);
    if |header| <= Limit && AllWithin(lines, Limit) && |total| <= Limit {
      BalanceChunksWithin(header, lines, total);
    }
    if |header| + |Concat(lines)| + |total| <= Limit {
      BalanceChunksFits(header, lines, total);
    }
  }

  /** A single placement keeps every message within the threshold. */
  lemma PlaceWithin(chunks: seq<string>, piece: string)
    requires chunks != []
    requires AllWithin(chunks, Limit) && |piece| <= Limit
    ensures AllWithin(Place(chunks, piece), Limit)
  {
  }

  lemma PrefixExtend(a: string, b: string, c: string)
    requires a <= b
    ensures a <= b + c
  {
    assert (b + c)[..|b|] == b;
  }

  /** Placing a piece only ever extends the first message. */
  lemma PlaceKeepsFirst(chunks: seq<string>, piece: string)
    requires chunks != []
    ensures chunks[0] <= Place(chunks, piece)[0]
  {
    if |chunks| == 1 && |Last(chunks)| + |piece| <= Limit {
      assert Place(chunks, piece)[0] == chunks[0] + piece;
      PrefixExtend(chunks[0], chunks[0], piece);
    }
  }

  /** The first message of a report starts with the header. */
  lemma BalanceChunksHeader(header: string, lines: seq<string>, total: string)
    ensures BalanceChunks(header, lines, total) != []
    ensures header <= BalanceChunks(header, lines, total)[0]
  {
    var placed := PlaceAll([header], lines);
    PlaceAllKeepsEarlier([header], lines);
    PlaceKeepsFirst(placed, total);
  }

  lemma BalanceChunksConcat(header: string, lines: seq<string>, total: string)
    ensures Concat(BalanceChunks(header, lines, total)) == header + Concat(lines) + total
  {
    var placed := PlaceAll([header], lines);
    PlaceAllConcat([header], lines);
    PlaceConcat(placed, total);
    assert Concat([header]) == header by { assert [header][..0] == []; }
  }

  lemma BalanceChunksWithin(header: string, lines: seq<string>, total: string)
    requires |header| <= Limit && AllWithin(lines, Limit) && |total| <= Limit
    ensures AllWithin(BalanceChunks(header, lines, total), Limit)
  {
    PlaceAllWithin([header], lines);
    PlaceWithin(PlaceAll([header], lines), total);
  }

  lemma BalanceChunksFits(header: string, lines: seq<string>, total: string)
    requires |header| + |Concat(lines)| + |total| <= Limit
    ensures BalanceChunks(header, lines, total) == [header + Concat(lines) + total]
  {
    PlaceAllFits([header], lines);
    assert PlaceAll([header], lines) == [header + Concat(lines)];
  }

  /**
   * `total_balance_handler` (bot.py): `current_text` starts as the header; a
   * line that does not fit seals `current_text` into `text_parts`; at the end
   * the total line is appended to `current_text` unconditionally.
   */
  method TotalMessages(header: string, lines: seq<string>, total: string) returns (textParts: seq<string>)
    ensures textParts == TotalChunks(header, lines, total)
    ensures textParts != [] && header <= textParts[0]
    ensures |Last(textParts)| >= |total| && Last(textParts)[|Last(textParts)| - |total|..] == total
    ensures Concat(textParts) == header + Concat(lines) + total
    ensures |header| <= Limit && AllWithin(lines, Limit) ==>
      && AllWithin(textParts[..|textParts| - 1], Limit)
      && |textParts[|textParts| - 1]| <= Limit + |total|
    ensures |header| + |Concat(lines)| <= Limit ==> textParts == [header + Concat(lines) + total]
  {
    textParts := [];
    var currentText := header;
    var i := 0;
    while i < |lines|
      invariant 0 <= i <= |lines|
      invariant textParts + [currentText] == PlaceAll([header], lines[..i])
    {
      var newLine := lines[i];
      ghost var before := textParts + [currentText];
      assert before[..|before| - 1] == textParts;
      if |currentText| + |newLine| > Limit {
        textParts := textParts + [currentText];
        currentText := "";
        assert "" + newLine == newLine;
      }
      currentText := currentText + newLine;
      assert textParts + [currentText] == Place(before, newLine);
      assert lines[..i + 1][..i] == lines[..i];
      assert PlaceAll([header], lines[..i + 1]) == Place(PlaceAll([header], lines[..i]), newLine);
      i := i + 1;
    }
    assert lines[..i] == lines;
    ghost var placed := textParts + [currentText];
    assert placed[..|placed| - 1] == textParts;
    currentText := currentText + total;
    textParts := textParts + [currentText];
    TotalChunksLast(header, lines, total);
    TotalChunksHeader(header, lines, total);
    TotalChunksConcat(header, lines, total);
    if |header| <= Limit && AllWithin(lines, Limit) {
      TotalChunksWithin(header, lines, total);
    }
    if |header| + |Concat(lines)| <= Limit {
      TotalChunksFits(header, lines, total);
    }
  }

  /** The total line is appended to the last message. */
  lemma TotalChunksLast(header: string, lines: seq<string>, total: string)
    ensures var r := TotalChunks(header, lines, total);
      r[..|r| - 1] == PlaceAll([header], lines)[..|PlaceAll([header], lines)| - 1]
      && Last(r) == Last(PlaceAll([header], lines)) + total
      && |Last(r)| >= |total| && Last(r)[|Last(r)| - |total|..] == total
  {
    var placed := PlaceAll([header], lines);
    var r := TotalChunks(header, lines, total);
    assert r[..|r| - 1] == placed[..|placed| - 1];
    assert Last(r)[|Last(r)| - |total|..] == total;
  }

  /** The first message starts with the header. */
  lemma TotalChunksHeader(header: string, lines: seq<string>, total: string)
    ensures header <= TotalChunks(header, lines, total)[0]
  {
    var placed := PlaceAll([header], lines);
    var r := TotalChunks(header, lines, total);
    PlaceAllKeepsEarlier([header], lines);
    if |placed| == 1 {
      assert r[0] == placed[0] + total;
      PrefixExtend(header, placed[0], total);
    } else {
      assert r[0] == placed[0];
    }
  }

  lemma TotalChunksConcat(header: string, lines: seq<string>, total: string)
    ensures Concat(TotalChunks(header, lines, total)) == header + Concat(lines) + total
  {
    var placed := PlaceAll([header], lines);
    PlaceAllConcat([header], lines);
    ConcatExtendLast(placed, total);
    assert Concat([header]) == header by { assert [header][..0] == []; }
  }

  /** Every message but the last is within the threshold; the last may exceed it by the total line. */
  lemma TotalChunksWithin(header: string, lines: seq<string>, total: string)
    requires |header| <= Limit && AllWithin(lines, Limit)
    ensures var r := TotalChunks(header, lines, total);
      AllWithin(r[..|r| - 1], Limit) && |Last(r)| <= Limit + |total|
  {
    PlaceAllWithin([header], lines);
    TotalChunksLast(header, lines, total);
  }

  /** A report whose header and lines fit is one message. */
  lemma TotalChunksFits(header: string, lines: seq<string>, total: string)
    requires |header| + |Concat(lines)| <= Limit
    ensures TotalChunks(header, lines, total) == [header + Concat(lines) + total]
  {
    PlaceAllFits([header], lines);
    assert PlaceAll([header], lines) == [header + Concat(lines)];
  }

  /**
   * Unlike `balance_handler`, `total_balance_handler` can send a message
   * longer than the threshold although every piece is within it.
   */
  lemma TotalLineMayExceedLimit()
    ensures exists header: string, total: string ::
      && |header| <= Limit && |total| <= Limit
      && |Last(TotalChunks(header, [], total))| > Limit
      && AllWithin(BalanceChunks(header, [], total), Limit)
  {
    var header := seq(Limit, _ => 'a');
    var total := "b";
    assert TotalChunks(header, [], total) == [header + total];
    BalanceChunksWithin(header, [], total);
  }
}
