/** The write-ahead log as text: one line per record, replayed by splitting at newlines. */
module Wal {
  import opened Lines

  /** Position of the first newline, or the length of the text. */
  function FirstNewline(text: string): (i: nat)
    ensures i <= |text|
    ensures '\n' !in text[..i]
    ensures i < |text| ==> text[i] == '\n'
  {
    if text == "" || text[0] == '\n' then 0
    else
      var i := 1 + FirstNewline(text[1..]);
      assert text[..i] == [text[0]] + text[1..][..i - 1];
      i
  }

  /** The pieces `getline` delivers; a final newline does not open another piece. */
  function Split(text: string): seq<string> { Pieces(text) }

  function Pieces(text: string): seq<string>
    decreases |text|
  {
    if text == "" then []
    else
      var i := FirstNewline(text);
      if i == |text| then [text] else [text[..i]] + Pieces(text[i + 1..])
  }

  predicate EndsInCR(line: string) { line != "" && line[|line| - 1] == '\r' }

  function DropCR(line: string): string { if EndsInCR(line) then line[..|line| - 1] else line }

  function CleanAll(lines: seq<string>): seq<string> {
    if lines == [] then []
    else CleanAll(lines[..|lines| - 1]) + if lines[|lines| - 1] == "" then [] else [DropCR(lines[|lines| - 1])]
  }

  /** Replay skips empty lines and drops one trailing carriage return from the others. */
  function Clean(lines: seq<string>): seq<string> { CleanAll(lines) }

  function Recover(text: string): seq<string> { Clean(Split(text)) }

  /** The lines the log keeps unchanged. */
  predicate Loggable(line: string) { line != "" && '\n' !in line && !EndsInCR(line) }

  function Rest(text: string): string {
    var i := FirstNewline(text);
    if i == |text| then "" else text[i + 1..]
  }

  lemma SplitNext(text: string)
    requires text != ""
    ensures Split(text) == [text[..FirstNewline(text)]] + Split(Rest(text))
  {
    var i := FirstNewline(text);
    if i == |text| {
      assert text[..i] == text;
      assert Split(Rest(text)) == [];
    }
  }

  lemma CleanSnoc(lines: seq<string>, line: string)
    ensures Clean(lines + [line]) == Clean(lines) + if line == "" then [] else [DropCR(line)]
  {
    assert (lines + [line])[..|lines|] == lines;
  }

  lemma ReadStep(seen: seq<string>, rest: string)
    requires rest != ""
    ensures seen + Split(rest) == (seen + [rest[..FirstNewline(rest)]]) + Split(Rest(rest))
  {
    SplitNext(rest);
  }

  /** The recovery loop, reading one line at a time. */
  method RecoverLines(text: string) returns (recovered: seq<string>)
    ensures recovered == Recover(text)
  {
    recovered := [];
    var rest := text;
    ghost var seen: seq<string> := [];
    while rest != ""
      invariant Split(text) == seen + Split(rest)
      invariant recovered == Clean(seen)
      decreases |rest|
    {
      var line := rest[..FirstNewline(rest)];
      ReadStep(seen, rest);
      CleanSnoc(seen, line);
      seen := seen + [line];
      rest := Rest(rest);
      if line != "" {
        recovered := recovered + [DropCR(line)];
      }
    }
    assert seen + Split("") == seen;
  }

  lemma {:induction false} FirstNewlineIs(text: string, i: nat)
    requires i < |text| && text[i] == '\n' && '\n' !in text[..i]
    ensures FirstNewline(text) == i
  {
    if i > 0 {
      assert text[..i][0] == text[0] && text[1..][..i - 1] == text[..i][1..];
      FirstNewlineIs(text[1..], i - 1);
    }
  }

  lemma {:induction false} SplitLine(line: string, rest: string)
    requires '\n' !in line
    ensures Split(line + "\n" + rest) == [line] + Split(rest)
  {
    var text := line + "\n" + rest;
    assert text[..|line|] == line;
    FirstNewlineIs(text, |line|);
    assert text[|line| + 1..] == rest;
  }

  /** Splitting undoes serialising for lines without newlines. */
  lemma {:induction false} SplitSerialize(lines: seq<string>)
    requires forall i | 0 <= i < |lines| :: '\n' !in lines[i]
    ensures Split(Serialize(lines)) == lines
    decreases |lines|
  {
    if lines != [] {
      assert lines == [lines[0]] + lines[1..];
      SerializeCons(lines[0], lines[1..]);
      SplitLine(lines[0], Serialize(lines[1..]));
      SplitSerialize(lines[1..]);
    }
  }

  lemma {:induction false} SplitHasNoNewlines(text: string)
    ensures forall i | 0 <= i < |Split(text)| :: '\n' !in Split(text)[i]
    decreases |text|
  {
    if text != "" {
      var i := FirstNewline(text);
      if i == |text| {
        assert text[..i] == text;
      } else {
        SplitHasNoNewlines(text[i + 1..]);
        SplitNext(text);
      }
    }
  }

  lemma {:induction false} CleanHasNoNewlines(lines: seq<string>)
    requires forall i | 0 <= i < |lines| :: '\n' !in lines[i]
    ensures forall i | 0 <= i < |Clean(lines)| :: '\n' !in Clean(lines)[i]
  {
    if lines != [] {
      CleanHasNoNewlines(lines[..|lines| - 1]);
      CleanSnoc(lines[..|lines| - 1], lines[|lines| - 1]);
      assert lines == lines[..|lines| - 1] + [lines[|lines| - 1]];
      var last := lines[|lines| - 1];
      assert forall c | c in DropCR(last) :: c in last;
    }
  }

  lemma RecoveredHaveNoNewlines(text: string)
    ensures forall i | 0 <= i < |Recover(text)| :: '\n' !in Recover(text)[i]
  {
    SplitHasNoNewlines(text);
    CleanHasNoNewlines(Split(text));
  }

  lemma {:induction false} CleanLength(lines: seq<string>)
    ensures |Clean(lines)| <= |lines|
  {
    if lines != [] { CleanLength(lines[..|lines| - 1]); }
  }

  predicate Kept(line: string) { line != "" && !EndsInCR(line) }

  lemma {:induction false} CleanKeeps(lines: seq<string>)
    requires forall i | 0 <= i < |lines| :: Kept(lines[i])
    ensures Clean(lines) == lines
  {
    if lines != [] {
      CleanKeeps(lines[..|lines| - 1]);
      assert lines == lines[..|lines| - 1] + [lines[|lines| - 1]];
    }
  }

  lemma {:induction false} CleanDetects(lines: seq<string>, i: nat)
    requires Clean(lines) == lines && i < |lines|
    ensures Kept(lines[i])
  {
    var n := |lines| - 1;
    var init := lines[..n];
    CleanLength(init);
    assert Clean(lines)[..n] == init;
    assert Clean(init) == init;
    if i < n { CleanDetects(init, i); } else { assert Clean(lines)[n] == DropCR(lines[n]); }
  }

  /** Recovery of appended lines that carry no newline: the log's cleaning, and nothing more. */
  lemma RecoverSerialized(lines: seq<string>)
    requires forall i | 0 <= i < |lines| :: '\n' !in lines[i]
    ensures Recover(Serialize(lines)) == Clean(lines)
  {
    SplitSerialize(lines);
  }

  /** The round trip holds exactly for batches of loggable lines. */
  lemma WalRoundTripIff(lines: seq<string>)
    ensures Recover(Serialize(lines)) == lines <==> forall i | 0 <= i < |lines| :: Loggable(lines[i])
  {
    if forall i | 0 <= i < |lines| :: '\n' !in lines[i] {
      RecoverSerialized(lines);
      if Clean(lines) == lines {
        forall i | 0 <= i < |lines| ensures Loggable(lines[i]) { CleanDetects(lines, i); }
      } else if forall i | 0 <= i < |lines| :: Loggable(lines[i]) {
        CleanKeeps(lines);
      }
    } else {
      RecoveredHaveNoNewlines(Serialize(lines));
    }
  }

  /** A logged line: an empty one, or text with or without a carriage return at its end. */
  datatype Piece = Empty | Line(text: string, cr: bool)

  function TextOf(p: Piece): string {
    match p
    case Empty => ""
    case Line(text, cr) => if cr then text + "\r" else text
  }

  function Texts(ps: seq<Piece>): (lines: seq<string>)
    ensures |lines| == |ps| && forall i | 0 <= i < |ps| :: lines[i] == TextOf(ps[i])
  {
    seq(|ps|, i requires 0 <= i < |ps| => TextOf(ps[i]))
  }

  function CollectTexts(ps: seq<Piece>): seq<string> {
    if ps == [] then []
    else CollectTexts(ps[..|ps| - 1]) + if ps[|ps| - 1].Empty? then [] else [ps[|ps| - 1].text]
  }

  /** The texts alone, empty lines left out. */
  function Contents(ps: seq<Piece>): seq<string> { CollectTexts(ps) }

  /** Newline-free, and without the return neither empty nor ending in one, so that the piece is read
      off its text in one way only. */
  predicate GoodPiece(p: Piece) {
    p.Line? ==> '\n' !in p.text && (!p.cr ==> p.text != "" && p.text[|p.text| - 1] != '\r')
  }

  ghost predicate GoodPieces(ps: seq<Piece>) { forall i | 0 <= i < |ps| :: GoodPiece(ps[i]) }

  lemma {:induction false} CleanedPieces(ps: seq<Piece>)
    requires GoodPieces(ps)
    ensures Clean(Texts(ps)) == Contents(ps)
  {
    if ps != [] {
      var n := |ps| - 1;
      CleanedPieces(ps[..n]);
      assert Texts(ps) == Texts(ps[..n]) + [TextOf(ps[n])];
      CleanSnoc(Texts(ps[..n]), TextOf(ps[n]));
      PieceCleans(ps[n]);
    }
  }

  lemma PieceCleans(p: Piece)
    requires GoodPiece(p)
    ensures (if TextOf(p) == "" then [] else [DropCR(TextOf(p))]) == if p.Empty? then [] else [p.text]
  {
    if p.Line? && p.cr {
      assert (p.text + "\r")[..|p.text|] == p.text;
    }
  }

  /** Every newline-free line is one piece: recovery drops the empty lines and exactly one carriage
      return from the others, and keeps the texts in order. */
  lemma RecoverPieces(ps: seq<Piece>)
    requires GoodPieces(ps)
    ensures Recover(Serialize(Texts(ps))) == Contents(ps)
  {
    forall i | 0 <= i < |ps| ensures '\n' !in Texts(ps)[i] { assert GoodPiece(ps[i]); }
    RecoverSerialized(Texts(ps));
    CleanedPieces(ps);
  }

  /** One line that ended in a carriage return comes back without it, whatever else it holds. */
  lemma RecoverCRLF(line: string)
    requires '\n' !in line
    ensures Recover(Serialize([line + "\r"])) == [line]
  {
    var ps := [Line(line, true)];
    RecoverPieces(ps);
    assert Texts(ps) == [line + "\r"];
    assert ps[..0] == [] && Contents(ps[..0]) == [];
  }

  lemma {:induction false} SplitPartial(lines: seq<string>, rest: string)
    requires forall i | 0 <= i < |lines| :: '\n' !in lines[i]
    requires rest != "" && '\n' !in rest
    ensures Split(Serialize(lines) + rest) == lines + [rest]
    decreases |lines|
  {
    if lines == [] {
      assert Serialize(lines) + rest == rest;
      FirstNewlineNone(rest);
    } else {
      var tail := lines[1..];
      assert lines == [lines[0]] + tail;
      SerializeCons(lines[0], tail);
      assert Serialize(lines) + rest == lines[0] + "\n" + (Serialize(tail) + rest);
      SplitLine(lines[0], Serialize(tail) + rest);
      SplitPartial(tail, rest);
    }
  }

  lemma {:induction false} FirstNewlineNone(text: string)
    requires '\n' !in text
    ensures FirstNewline(text) == |text|
  {
    if text != "" { FirstNewlineNone(text[1..]); }
  }

  /** A last line cut off before its newline is recovered as far as it was written. */
  lemma RecoverCutOff(ps: seq<Piece>, last: Piece)
    requires GoodPieces(ps) && GoodPiece(last) && last.Line?
    ensures Recover(Serialize(Texts(ps)) + TextOf(last)) == Contents(ps) + [last.text]
  {
    var all := ps + [last];
    forall i | 0 <= i < |ps| ensures '\n' !in Texts(ps)[i] { assert GoodPiece(ps[i]); }
    SplitPartial(Texts(ps), TextOf(last));
    assert Texts(all) == Texts(ps) + [TextOf(last)];
    CleanedPieces(all);
    assert all[..|ps|] == ps;
  }

  /** A carriage return alone comes back as an empty line. */
  lemma WalCounterexample()
    ensures Recover(Serialize(["\r"])) == [""]
  {
    RecoverSerialized(["\r"]);
    assert ["\r"][..0] == [];
  }
}
