/** The ffmpeg merge command of index.mjs:96 and how a command line splits into
    arguments: spaces separate words, and double quotes group characters
    (spaces included) into a word without being part of it. */
module Command {

  /** The state of the word splitter: the words so far, the word being read,
      whether a word has started, and whether a quote is open. */
  datatype Lexer = Lexer(done: seq<string>, word: string, inWord: bool, quoted: bool)

  function Idle(done: seq<string>): Lexer {
    Lexer(done, "", false, false)
  }

  /** Inside an unquoted word, `word` read so far. */
  function Pending(done: seq<string>, word: string): Lexer {
    Lexer(done, word, true, false)
  }

  function Feed(st: Lexer, c: char): Lexer {
    if st.quoted then
      if c == '"' then st.(quoted := false) else st.(word := st.word + [c])
    else if c == '"' then st.(quoted := true, inWord := true)
    else if c == ' ' then
      if st.inWord then Idle(st.done + [st.word]) else st
    else st.(word := st.word + [c], inWord := true)
  }

  function Scan(st: Lexer, s: string): Lexer
    decreases |s|
  {
    if s == "" then st else Scan(Feed(st, s[0]), s[1..])
  }

  /** The arguments a command line splits into: none for an empty line, and the
      whole line for a single word with neither a space nor a double quote. */
  function Words(s: string): (r: seq<string>)
    ensures s == "" ==> r == []
    ensures Plain(s) && s != "" ==> r == [s]
  {
    var st := Scan(Idle([]), s);
    assert Plain(s) && s != "" ==> st == Pending([], s) by {
      if Plain(s) && s != "" {
        FirstWord(s);
      }
    }
    if st.inWord then st.done + [st.word] else st.done
  }

  /** Scanning is a left fold: two texts in a row scan as one after the other. */
  lemma {:induction false} ScanAppend(st: Lexer, a: string, b: string)
    ensures Scan(st, a + b) == Scan(Scan(st, a), b)
    decreases |a|
  {
    if a == "" {
      assert a + b == b;
    } else {
      assert (a + b)[0] == a[0] && (a + b)[1..] == a[1..] + b;
      ScanAppend(Feed(st, a[0]), a[1..], b);
    }
  }

  /** Text with neither a space nor a double quote. */
  predicate Plain(w: string) {
    forall i :: 0 <= i < |w| ==> w[i] != ' ' && w[i] != '"'
  }

  /** Text with no double quote. */
  predicate NoQuote(w: string) {
    forall i :: 0 <= i < |w| ==> w[i] != '"'
  }

  lemma {:induction false} ScanPlain(done: seq<string>, word: string, w: string)
    requires Plain(w)
    ensures Scan(Pending(done, word), w) == Pending(done, word + w)
    decreases |w|
  {
    if w == "" {
      assert word + w == word;
    } else {
      ScanPlain(done, word + [w[0]], w[1..]);
      assert word + [w[0]] + w[1..] == word + w;
    }
  }

  lemma {:induction false} ScanQuoted(done: seq<string>, word: string, v: string)
    requires NoQuote(v)
    ensures Scan(Lexer(done, word, true, true), v) == Lexer(done, word + v, true, true)
    decreases |v|
  {
    if v == "" {
      assert word + v == word;
    } else {
      ScanQuoted(done, word + [v[0]], v[1..]);
      assert word + [v[0]] + v[1..] == word + v;
    }
  }

  /** A space and a plain word end the current argument and start the next. */
  lemma PlainWord(done: seq<string>, word: string, w: string)
    requires Plain(w) && w != ""
    ensures Scan(Pending(done, word), " " + w) == Pending(done + [word], w)
  {
    var s := " " + w;
    assert s[0] == ' ' && s[1..] == w;
    assert Feed(Pending(done, word), ' ') == Idle(done + [word]);
    assert Feed(Idle(done + [word]), w[0]) == Pending(done + [word], [w[0]]);
    ScanPlain(done + [word], [w[0]], w[1..]);
    assert [w[0]] + w[1..] == w;
  }

  /** A space and a double-quoted text end the current argument and make the
      quoted text, spaces and all, the next one. */
  lemma QuotedWord(done: seq<string>, word: string, v: string)
    requires NoQuote(v)
    ensures Scan(Pending(done, word), " \"" + v + "\"") == Pending(done + [word], v)
  {
    var d := done + [word];
    var open, close := " \"", "\"";
    ScanAppend(Pending(done, word), open, v + close);
    assert open + v + close == open + (v + close);
    assert Scan(Pending(done, word), open) == Lexer(d, "", true, true) by {
      assert open[0] == ' ' && open[1..] == close && close[0] == '"' && close[1..] == "";
    }
    ScanAppend(Lexer(d, "", true, true), v, close);
    ScanQuoted(d, "", v);
    assert "" + v == v;
    assert Scan(Lexer(d, v, true, true), close) == Pending(d, v) by {
      assert close[0] == '"' && close[1..] == "";
    }
  }

  /** One argument after the program name: a plain word, or a text in double quotes. */
  datatype Piece = PlainPiece(text: string) | QuotedPiece(text: string)

  predicate WellFormed(p: Piece) {
    match p
    case PlainPiece(t) => Plain(t) && t != ""
    case QuotedPiece(t) => NoQuote(t)
  }

  predicate AllWellFormed(pieces: seq<Piece>) {
    forall i :: 0 <= i < |pieces| ==> WellFormed(pieces[i])
  }

  /** A piece as it is written after the previous argument. */
  function PieceText(p: Piece): string {
    match p
    case PlainPiece(t) => " " + t
    case QuotedPiece(t) => " \"" + t + "\""
  }

  function Render(pieces: seq<Piece>): string {
    if pieces == [] then "" else PieceText(pieces[0]) + Render(pieces[1..])
  }

  lemma {:induction false} RenderAppend(a: seq<Piece>, b: seq<Piece>)
    ensures Render(a + b) == Render(a) + Render(b)
    decreases |a|
  {
    if a == [] {
      assert a + b == b;
    } else {
      assert (a + b)[0] == a[0] && (a + b)[1..] == a[1..] + b;
      RenderAppend(a[1..], b);
    }
  }

  /** The arguments the pieces stand for. */
  function Arguments(pieces: seq<Piece>): seq<string> {
    seq(|pieces|, i requires 0 <= i < |pieces| => pieces[i].text)
  }

  /** A well-formed piece ends the current argument and is read as the next one. */
  lemma ScanPiece(done: seq<string>, word: string, p: Piece)
    requires WellFormed(p)
    ensures Scan(Pending(done, word), PieceText(p)) == Pending(done + [word], p.text)
  {
    match p {
      case PlainPiece(t) => PlainWord(done, word, t);
      case QuotedPiece(t) => QuotedWord(done, word, t);
    }
  }

  /** The splitter's state after reading `pieces` behind an argument `word`:
      each piece ends the argument before it. */
  function AfterPieces(done: seq<string>, word: string, pieces: seq<Piece>): Lexer
    decreases |pieces|
  {
    if pieces == [] then Pending(done, word)
    else AfterPieces(done + [word], pieces[0].text, pieces[1..])
  }

  /** Reading well-formed pieces after an argument `word` reaches `AfterPieces`. */
  lemma {:induction false} ScanPieces(done: seq<string>, word: string, pieces: seq<Piece>)
    requires AllWellFormed(pieces)
    ensures Scan(Pending(done, word), Render(pieces)) == AfterPieces(done, word, pieces)
    decreases |pieces|
  {
    if pieces == [] {
      assert Render(pieces) == "";
    } else {
      ScanFirstPiece(done, word, pieces);
      AllWellFormedTail(pieces);
      ScanPieces(done + [word], pieces[0].text, pieces[1..]);
    }
  }

  /** After the pieces, `word` and every piece's argument but the last are
      finished, and the last piece's argument is being read. */
  lemma {:induction false} AfterPiecesArguments(done: seq<string>, word: string, pieces: seq<Piece>)
    ensures var st := AfterPieces(done, word, pieces);
      && st.inWord && !st.quoted
      && st.done + [st.word] == done + [word] + Arguments(pieces)
    decreases |pieces|
  {
    if pieces == [] {
      assert Arguments(pieces) == [];
    } else {
      var p, rest := pieces[0], pieces[1..];
      AfterPiecesArguments(done + [word], p.text, rest);
      ArgumentsCons(pieces);
      assert done + [word] + [p.text] + Arguments(rest) == done + [word] + ([p.text] + Arguments(rest));
    }
  }

  lemma AllWellFormedTail(pieces: seq<Piece>)
    requires pieces != [] && AllWellFormed(pieces)
    ensures WellFormed(pieces[0]) && AllWellFormed(pieces[1..])
  {
    forall i | 0 <= i < |pieces| - 1 ensures WellFormed(pieces[1..][i]) {
      assert pieces[1..][i] == pieces[i + 1];
    }
  }

  /** Reading the first piece ends `word` and starts the piece's argument. */
  lemma ScanFirstPiece(done: seq<string>, word: string, pieces: seq<Piece>)
    requires pieces != [] && AllWellFormed(pieces)
    ensures Scan(Pending(done, word), Render(pieces))
      == Scan(Pending(done + [word], pieces[0].text), Render(pieces[1..]))
  {
    var p, rest := pieces[0], pieces[1..];
    assert Render(pieces) == PieceText(p) + Render(rest);
    ScanAppend(Pending(done, word), PieceText(p), Render(rest));
    ScanPiece(done, word, p);
  }

  lemma ArgumentsCons(pieces: seq<Piece>)
    requires pieces != []
    ensures Arguments(pieces) == [pieces[0].text] + Arguments(pieces[1..])
  {
  }

  /** A first plain word starts the first argument. */
  lemma FirstWord(w: string)
    requires Plain(w) && w != ""
    ensures Scan(Idle([]), w) == Pending([], w)
  {
    assert Feed(Idle([]), w[0]) == Pending([], [w[0]]);
    ScanPlain([], [w[0]], w[1..]);
    assert [w[0]] + w[1..] == w;
  }

  /** `ffmpeg.exe -y -i "<video>" -i "<audio>"[ -c:v copy] -shortest "<file>"`:
      the program name comes first and the quoted output file last. */
  function MergeCommand(video: string, audio: string, reencode: bool, file: string): (r: string)
    ensures |r| >= 10 && r[..10] == "ffmpeg.exe"
    ensures |r| >= |file| + 13 && r[|r| - |file| - 13..] == " -shortest \"" + file + "\""
  {
    var head := "ffmpeg.exe -y -i \"" + video + "\" -i \"" + audio + "\""
      + (if !reencode then " -c:v copy" else "");
    var tail := " -shortest \"" + file + "\"";
    assert (head + tail)[..10] == head[..10];
    assert (head + tail)[|head + tail| - |tail|..] == tail;
    head + tail
  }

  /** The merge command's arguments after the program name, as pieces. */
  function MergePieces(video: string, audio: string, reencode: bool, file: string): seq<Piece> {
    [PlainPiece("-y"), PlainPiece("-i"), QuotedPiece(video), PlainPiece("-i"), QuotedPiece(audio)]
      + (if !reencode then [PlainPiece("-c:v"), PlainPiece("copy")] else [])
      + [PlainPiece("-shortest"), QuotedPiece(file)]
  }

  lemma RenderCons(p: Piece, rest: seq<Piece>)
    ensures Render([p] + rest) == PieceText(p) + Render(rest)
  {
    assert ([p] + rest)[0] == p && ([p] + rest)[1..] == rest;
  }

  lemma MergeRender(video: string, audio: string, reencode: bool, file: string)
    ensures MergeCommand(video, audio, reencode, file) == "ffmpeg.exe" + Render(MergePieces(video, audio, reencode, file))
  {
    var rc := if !reencode then " -c:v copy" else "";
    RenderParts(video, audio, reencode, file);
    MergeText(video, audio, rc, file);
  }

  /** The merge command's text around an arbitrary middle part `rc`. */
  lemma MergeText(video: string, audio: string, rc: string, file: string)
    ensures "ffmpeg.exe -y -i \"" + video + "\" -i \"" + audio + "\"" + rc + " -shortest \"" + file + "\""
      == "ffmpeg.exe" + ((" -y" + " -i" + " \"" + video + "\"" + " -i" + " \"" + audio + "\"") + rc
                         + (" -shortest" + " \"" + file + "\""))
  {
    var rh := " -y" + " -i" + " \"" + video + "\"" + " -i" + " \"" + audio + "\"";
    var rt := " -shortest" + " \"" + file + "\"";
    var head := "ffmpeg.exe -y -i \"" + video + "\" -i \"" + audio + "\"";
    HeadText(video, audio);
    assert head == "ffmpeg.exe" + rh;
    assert " -shortest \"" == " -shortest" + " \"";
    assert " -shortest \"" + file + "\"" == rt;
    assert head + rc + " -shortest \"" + file + "\"" == head + rc + rt;
    assert head + rc + rt == "ffmpeg.exe" + (rh + rc + rt);
  }

  /** The pieces render as the head, the optional copy flags and the tail. */
  lemma RenderParts(video: string, audio: string, reencode: bool, file: string)
    ensures Render(MergePieces(video, audio, reencode, file))
      == (" -y" + " -i" + " \"" + video + "\"" + " -i" + " \"" + audio + "\"")
         + (if !reencode then " -c:v copy" else "")
         + (" -shortest" + " \"" + file + "\"")
  {
    var h := [PlainPiece("-y"), PlainPiece("-i"), QuotedPiece(video), PlainPiece("-i"), QuotedPiece(audio)];
    var c := if !reencode then [PlainPiece("-c:v"), PlainPiece("copy")] else [];
    var t := [PlainPiece("-shortest"), QuotedPiece(file)];
    RenderAppend(h + c, t);
    RenderAppend(h, c);
    RenderHead(video, audio);
    RenderCopy(reencode);
    RenderTail(file);
  }

  /** The command's head, split at the places the arguments begin. */
  lemma HeadText(video: string, audio: string)
    ensures "ffmpeg.exe -y -i \"" + video + "\" -i \"" + audio + "\""
      == "ffmpeg.exe" + (" -y" + " -i" + " \"" + video + "\"" + " -i" + " \"" + audio + "\"")
  {
    assert "ffmpeg.exe -y -i \"" == "ffmpeg.exe" + " -y" + " -i" + " \"";
    assert "\" -i \"" == "\"" + " -i" + " \"";
  }

  lemma RenderFive(a: Piece, b: Piece, c: Piece, d: Piece, e: Piece)
    ensures Render([a, b, c, d, e])
      == PieceText(a) + PieceText(b) + PieceText(c) + PieceText(d) + PieceText(e)
  {
    assert Render([d, e]) == PieceText(d) + PieceText(e) by {
      RenderCons(d, [e]);
      RenderCons(e, []);
      assert [d] + [e] == [d, e];
    }
    assert Render([c, d, e]) == PieceText(c) + Render([d, e]) by {
      RenderCons(c, [d, e]);
      assert [c] + [d, e] == [c, d, e];
    }
    assert Render([b, c, d, e]) == PieceText(b) + Render([c, d, e]) by {
      RenderCons(b, [c, d, e]);
      assert [b] + [c, d, e] == [b, c, d, e];
    }
    assert Render([a, b, c, d, e]) == PieceText(a) + Render([b, c, d, e]) by {
      RenderCons(a, [b, c, d, e]);
      assert [a] + [b, c, d, e] == [a, b, c, d, e];
    }
    Associate(PieceText(a), PieceText(b), PieceText(c), PieceText(d), PieceText(e));
  }

  lemma Associate(a: string, b: string, c: string, d: string, e: string)
    ensures a + (b + (c + (d + e))) == a + b + c + d + e
  {
  }

  lemma RenderHead(video: string, audio: string)
    ensures Render([PlainPiece("-y"), PlainPiece("-i"), QuotedPiece(video), PlainPiece("-i"), QuotedPiece(audio)])
      == " -y" + " -i" + " \"" + video + "\"" + " -i" + " \"" + audio + "\""
  {
    RenderFive(PlainPiece("-y"), PlainPiece("-i"), QuotedPiece(video), PlainPiece("-i"), QuotedPiece(audio));
    HeadPieceTexts(video, audio);
  }

  lemma HeadPieceTexts(video: string, audio: string)
    ensures PieceText(PlainPiece("-y")) + PieceText(PlainPiece("-i")) + PieceText(QuotedPiece(video))
        + PieceText(PlainPiece("-i")) + PieceText(QuotedPiece(audio))
      == " -y" + " -i" + " \"" + video + "\"" + " -i" + " \"" + audio + "\""
  {
    var p := " \"" + video + "\"";
    var q := " \"" + audio + "\"";
    assert PieceText(PlainPiece("-y")) == " -y";
    assert PieceText(PlainPiece("-i")) == " -i";
    assert PieceText(QuotedPiece(video)) == p;
    assert PieceText(QuotedPiece(audio)) == q;
    assert " -y" + " -i" + p + " -i" + q == " -y" + " -i" + " \"" + video + "\"" + " -i" + " \"" + audio + "\"";
  }

  lemma RenderTwo(a: Piece, b: Piece)
    ensures Render([a, b]) == PieceText(a) + PieceText(b)
  {
    RenderCons(b, []);
    RenderCons(a, [b]);
    assert [a] + [b] == [a, b];
  }

  lemma RenderCopy(reencode: bool)
    ensures Render(if !reencode then [PlainPiece("-c:v"), PlainPiece("copy")] else [])
      == if !reencode then " -c:v copy" else ""
  {
    if !reencode {
      RenderTwo(PlainPiece("-c:v"), PlainPiece("copy"));
    }
  }

  lemma RenderTail(file: string)
    ensures Render([PlainPiece("-shortest"), QuotedPiece(file)]) == " -shortest" + " \"" + file + "\""
  {
    RenderTwo(PlainPiece("-shortest"), QuotedPiece(file));
    assert PieceText(QuotedPiece(file)) == " \"" + file + "\"";
  }

  /** The program name scans as the first argument. */
  lemma ScanProgram()
    ensures Scan(Idle([]), "ffmpeg.exe") == Pending([], "ffmpeg.exe")
  {
    FirstWord("ffmpeg.exe");
  }

  /** The merge command splits into: overwrite without asking, the video file as
      the first input and the audio file as the second, "-c:v copy" exactly when
      not re-encoding, and "-shortest" before the output file, whatever spaces the
      paths hold (as long as they hold no double quote). */
  lemma MergeArguments(video: string, audio: string, reencode: bool, file: string)
    requires NoQuote(video) && NoQuote(audio) && NoQuote(file)
    ensures Words(MergeCommand(video, audio, reencode, file))
      == ["ffmpeg.exe", "-y", "-i", video, "-i", audio]
         + (if !reencode then ["-c:v", "copy"] else [])
         + ["-shortest", file]
  {
    var pieces := MergePieces(video, audio, reencode, file);
    MergeRender(video, audio, reencode, file);
    ScanAppend(Idle([]), "ffmpeg.exe", Render(pieces));
    ScanProgram();
    PiecesWellFormed(video, audio, reencode, file);
    ScanPieces([], "ffmpeg.exe", pieces);
    AfterPiecesArguments([], "ffmpeg.exe", pieces);
    MergeArgumentList(video, audio, reencode, file);
  }

  lemma PiecesWellFormed(video: string, audio: string, reencode: bool, file: string)
    requires NoQuote(video) && NoQuote(audio) && NoQuote(file)
    ensures var pieces := MergePieces(video, audio, reencode, file);
      AllWellFormed(pieces)
  {
    assert Plain("-y") && Plain("-i") && Plain("-c:v") && Plain("copy") && Plain("-shortest");
  }

  lemma MergeArgumentList(video: string, audio: string, reencode: bool, file: string)
    ensures [] + ["ffmpeg.exe"] + Arguments(MergePieces(video, audio, reencode, file))
      == ["ffmpeg.exe", "-y", "-i", video, "-i", audio]
         + (if !reencode then ["-c:v", "copy"] else [])
         + ["-shortest", file]
  {
  }
}
