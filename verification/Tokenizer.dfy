/**
  `hw1/tokenizer.c`: the shell tokenizer, as the loop with look-ahead it is, proved
  against a one-character-at-a-time machine; and the printers it inverts.
  A C string is the sequence of its characters before the terminating NUL.
 */
module Tokenizer {
  import opened Prelude

  const CAPACITY: nat := 4096

  datatype Mode = Normal | SQuote | DQuote

  // isspace in the C locale
  predicate IsSpace(c: char) {
    c == ' ' || c == '\t' || c == '\n' || c == 11 as char || c == 12 as char || c == '\r'
  }

  // ---------- The machine ----------

  datatype Scan = Scan(mode: Mode, escaped: bool, word: string, words: seq<string>)

  const START := Scan(Normal, false, "", [])

  function Feed(s: Scan, c: char): Scan {
    if s.escaped then s.(escaped := false, word := s.word + [c])
    else if c == '\\' then s.(escaped := true)
    else match s.mode
      case Normal =>
        if c == '\'' then s.(mode := SQuote)
        else if c == '"' then s.(mode := DQuote)
        else if IsSpace(c) then s.(word := "", words := Finish(s))
        else s.(word := s.word + [c])
      case SQuote => if c == '\'' then s.(mode := Normal) else s.(word := s.word + [c])
      case DQuote => if c == '"' then s.(mode := Normal) else s.(word := s.word + [c])
  }

  function FeedAll(s: Scan, line: string): Scan
    decreases |line|
  {
    if line == "" then s else FeedAll(Feed(s, line[0]), line[1..])
  }

  // The words seen so far, the unfinished one included unless it is empty.
  function Finish(s: Scan): seq<string> {
    if s.word == "" then s.words else s.words + [s.word]
  }

  function Tokens(line: string): seq<string> {
    Finish(FeedAll(START, line))
  }

  // No word outgrows the buffer on the way (line 89 of the source).
  predicate Fits(s: Scan, line: string)
    decreases |line|
  {
    |s.word| + 1 < CAPACITY && (line != "" ==> Fits(Feed(s, line[0]), line[1..]))
  }

  lemma {:induction false} FeedConcat(s: Scan, a: string, b: string)
    ensures FeedAll(s, a + b) == FeedAll(FeedAll(s, a), b)
    ensures Fits(s, a + b) <==> Fits(s, a) && Fits(FeedAll(s, a), b)
    decreases |a|
  {
    if a == "" {
      assert a + b == b;
    } else {
      assert (a + b)[1..] == a[1..] + b;
      FeedConcat(Feed(s, a[0]), a[1..], b);
    }
  }

  lemma FeedLast(s: Scan, line: string, i: nat)
    requires i < |line|
    ensures FeedAll(s, line[..i + 1]) == Feed(FeedAll(s, line[..i]), line[i])
    ensures Fits(s, line[..i + 1]) <==> Fits(s, line[..i]) && |Feed(FeedAll(s, line[..i]), line[i]).word| + 1 < CAPACITY
  {
    FeedConcat(s, line[..i], [line[i]]);
    assert line[..i + 1] == line[..i] + [line[i]];
    var t := FeedAll(s, line[..i]);
    assert FeedAll(t, [line[i]]) == Feed(t, line[i]);
    LastFits(s, line[..i]);
  }

  lemma {:induction false} LastFits(s: Scan, line: string)
    ensures Fits(s, line) ==> |FeedAll(s, line).word| + 1 < CAPACITY
    decreases |line|
  {
    if line != "" {
      LastFits(Feed(s, line[0]), line[1..]);
    }
  }

  lemma FitsPrefix(s: Scan, line: string, i: nat)
    requires i <= |line| && !Fits(s, line[..i])
    ensures !Fits(s, line)
  {
    FeedConcat(s, line[..i], line[i..]);
    assert line == line[..i] + line[i..];
  }

  // ---------- The program ----------

  method CopyWord(source: array<char>, n: nat) returns (word: string)
    requires n < source.Length
    modifies source
    ensures word == old(source[..n])
  {
    source[n] := '\0';
    word := source[..n];
  }

  // token[n++] = c
  method PutChar(token: array<char>, n: nat, c: char) returns (n': nat)
    requires n < token.Length
    modifies token
    ensures n' == n + 1 && token[..n'] == old(token[..n]) + [c]
  {
    token[n] := c;
    n' := n + 1;
  }

  // None stands for abort().
  method Tokenize(line: string, token: array<char>) returns (tokens: Option<seq<string>>)
    requires token.Length == CAPACITY
    modifies token
    ensures tokens == if Fits(START, line) then Some(Tokens(line)) else None
  {
    var n, mode, i, words := 0, Normal, 0, [];
    assert line[..0] == "";
    while i < |line|
      invariant i <= |line| && n + 1 < CAPACITY
      invariant Fits(START, line[..i])
      invariant var s := FeedAll(START, line[..i]);
        s.mode == mode && s.word == token[..n] && s.words == words && (s.escaped ==> i == |line|)
    {
      var c := line[i];
      ghost var s := FeedAll(START, line[..i]);
      FeedLast(START, line, i);
      if mode == Normal {
        if c == '\'' {
          mode := SQuote;
        } else if c == '"' {
          mode := DQuote;
        } else if c == '\\' {
          if i + 1 < |line| {
            FeedLast(START, line, i + 1);
            i := i + 1;
            n := PutChar(token, n, line[i]);
          }
        } else if IsSpace(c) {
          if n > 0 {
            var word := CopyWord(token, n);
            words := words + [word];
            n := 0;
          }
        } else {
          n := PutChar(token, n, c);
        }
      } else if mode == SQuote {
        if c == '\'' {
          mode := Normal;
        } else if c == '\\' {
          if i + 1 < |line| {
            FeedLast(START, line, i + 1);
            i := i + 1;
            n := PutChar(token, n, line[i]);
          }
        } else {
          n := PutChar(token, n, c);
        }
      } else {
        if c == '"' {
          mode := Normal;
        } else if c == '\\' {
          if i + 1 < |line| {
            FeedLast(START, line, i + 1);
            i := i + 1;
            n := PutChar(token, n, line[i]);
          }
        } else {
          n := PutChar(token, n, c);
        }
      }
      i := i + 1;
      assert FeedAll(START, line[..i]).word == token[..n];
      if n + 1 >= CAPACITY {
        FitsPrefix(START, line, i);
        return None;
      }
    }
    assert line[..i] == line;
    if n > 0 {
      var word := CopyWord(token, n);
      words := words + [word];
      n := 0;
    }
    tokens := Some(words);
  }

  // ---------- The printers it inverts ----------

  // A character between quotes, bare or after a backslash.
  datatype Quoted = Bare(c: char) | Backslashed(c: char)

  // A word is written as a row of pieces, each in a style of its own.
  datatype Piece =
    | Plain(c: char)
    | Escape(c: char)
    | Single(body: seq<Quoted>)
    | Double(body: seq<Quoted>)

  predicate BodyOk(body: seq<Quoted>, quote: char) {
    forall k :: 0 <= k < |body| && body[k].Bare? ==> body[k].c != quote && body[k].c != '\\'
  }

  predicate PieceOk(p: Piece) {
    match p
    case Plain(c) => c != '\'' && c != '"' && c != '\\' && !IsSpace(c)
    case Escape(_) => true
    case Single(body) => BodyOk(body, '\'')
    case Double(body) => BodyOk(body, '"')
  }

  predicate AllOk(ps: seq<Piece>) {
    forall k :: 0 <= k < |ps| ==> PieceOk(ps[k])
  }

  function BodyText(body: seq<Quoted>): string {
    if body == [] then ""
    else (if body[0].Bare? then [body[0].c] else ['\\', body[0].c]) + BodyText(body[1..])
  }

  function BodyMeaning(body: seq<Quoted>): string {
    if body == [] then "" else [body[0].c] + BodyMeaning(body[1..])
  }

  function PieceText(p: Piece): string {
    match p
    case Plain(c) => [c]
    case Escape(c) => ['\\', c]
    case Single(body) => ['\''] + (BodyText(body) + ['\''])
    case Double(body) => ['"'] + (BodyText(body) + ['"'])
  }

  function PieceMeaning(p: Piece): string {
    match p
    case Plain(c) => [c]
    case Escape(c) => [c]
    case Single(body) => BodyMeaning(body)
    case Double(body) => BodyMeaning(body)
  }

  function Text(ps: seq<Piece>): string {
    if ps == [] then "" else PieceText(ps[0]) + Text(ps[1..])
  }

  function Meaning(ps: seq<Piece>): string {
    if ps == [] then "" else PieceMeaning(ps[0]) + Meaning(ps[1..])
  }

  lemma FeedOne(s: Scan, c: char)
    ensures FeedAll(s, [c]) == Feed(s, c)
    ensures Fits(s, [c]) <==> |s.word| + 1 < CAPACITY && |Feed(s, c).word| + 1 < CAPACITY
  {
    assert [c][1..] == "";
  }

  lemma FeedTwo(s: Scan, c: char, d: char)
    ensures FeedAll(s, [c, d]) == Feed(Feed(s, c), d)
    ensures Fits(s, [c, d]) <==>
      && |s.word| + 1 < CAPACITY && |Feed(s, c).word| + 1 < CAPACITY
      && |Feed(Feed(s, c), d).word| + 1 < CAPACITY
  {
    assert [c, d][1..] == [d];
    FeedOne(Feed(s, c), d);
  }

  predicate Short(word: string) {
    |word| + 1 < CAPACITY
  }

  // Reading text from s appends meaning to the current word, and only overflows if that does.
  predicate Appends(s: Scan, text: string, meaning: string) {
    && FeedAll(s, text) == s.(word := s.word + meaning)
    && (Fits(s, text) <==> Short(s.word + meaning))
  }

  lemma AppendsConcat(s: Scan, t1: string, m1: string, t2: string, m2: string)
    requires Appends(s, t1, m1) && Appends(s.(word := s.word + m1), t2, m2)
    ensures Appends(s, t1 + t2, m1 + m2)
  {
    FeedConcat(s, t1, t2);
    assert s.word + m1 + m2 == s.word + (m1 + m2);
  }

  lemma {:induction false} BodyAppends(s: Scan, body: seq<Quoted>, quote: char)
    requires !s.escaped && ((s.mode == SQuote && quote == '\'') || (s.mode == DQuote && quote == '"'))
    requires BodyOk(body, quote)
    ensures Appends(s, BodyText(body), BodyMeaning(body))
    decreases |body|
  {
    if body == [] {
      assert s.word + "" == s.word;
    } else {
      var q := body[0];
      var s1 := s.(word := s.word + [q.c]);
      var first := if q.Bare? then [q.c] else ['\\', q.c];
      if q.Bare? {
        FeedOne(s, q.c);
      } else {
        FeedTwo(s, '\\', q.c);
      }
      assert Appends(s, first, [q.c]);
      BodyAppends(s1, body[1..], quote);
      AppendsConcat(s, first, [q.c], BodyText(body[1..]), BodyMeaning(body[1..]));
    }
  }

  lemma PieceAppends(s: Scan, p: Piece)
    requires s.mode == Normal && !s.escaped && PieceOk(p)
    ensures Appends(s, PieceText(p), PieceMeaning(p))
  {
    match p
    case Plain(c) => FeedOne(s, c);
    case Escape(c) => FeedTwo(s, '\\', c);
    case Single(body) => QuotedAppends(s, body, SQuote, '\'');
    case Double(body) => QuotedAppends(s, body, DQuote, '"');
  }

  lemma QuotedAppends(s: Scan, body: seq<Quoted>, mode: Mode, quote: char)
    requires s.mode == Normal && !s.escaped && BodyOk(body, quote)
    requires (mode == SQuote && quote == '\'') || (mode == DQuote && quote == '"')
    ensures Appends(s, [quote] + (BodyText(body) + [quote]), BodyMeaning(body))
  {
    var inside := s.(mode := mode);
    var t, m := BodyText(body), BodyMeaning(body);
    FeedOne(s, quote);
    BodyAppends(inside, body, quote);
    FeedConcat(inside, t, [quote]);
    FeedOne(FeedAll(inside, t), quote);
    FeedConcat(s, [quote], t + [quote]);
    LastFits(inside, t);
    assert FeedAll(s, [quote]) == inside;
    if !Short(s.word) {
      assert !Short(s.word + m);
    }
  }

  lemma {:induction false} TextAppends(s: Scan, ps: seq<Piece>)
    requires s.mode == Normal && !s.escaped && AllOk(ps)
    ensures Appends(s, Text(ps), Meaning(ps))
    decreases |ps|
  {
    if ps == [] {
      assert s.word + "" == s.word;
    } else {
      var p := ps[0];
      PieceAppends(s, p);
      TextAppends(s.(word := s.word + PieceMeaning(p)), ps[1..]);
      AppendsConcat(s, PieceText(p), PieceMeaning(p), Text(ps[1..]), Meaning(ps[1..]));
    }
  }

  // ---------- Lists of words ----------

  predicate IsGap(gap: string) {
    gap != "" && forall k :: 0 <= k < |gap| ==> IsSpace(gap[k])
  }

  // A written word and the white space after it.
  datatype Item = Item(pieces: seq<Piece>, gap: string)

  predicate ItemsOk(items: seq<Item>) {
    forall k :: 0 <= k < |items| ==> AllOk(items[k].pieces) && Meaning(items[k].pieces) != "" && IsGap(items[k].gap)
  }

  function Line(items: seq<Item>, last: seq<Piece>): string {
    if items == [] then Text(last)
    else Text(items[0].pieces) + (items[0].gap + Line(items[1..], last))
  }

  lemma {:induction false} GapEndsWord(s: Scan, gap: string)
    requires s.mode == Normal && !s.escaped
    requires forall k :: 0 <= k < |gap| ==> IsSpace(gap[k])
    ensures Fits(s, gap) <==> Short(s.word)
    ensures FeedAll(s, gap) == if gap == "" then s else s.(word := "", words := Finish(s))
    decreases |gap|
  {
    if gap != "" {
      var s1 := Feed(s, gap[0]);
      assert forall k :: 0 <= k < |gap[1..]| ==> gap[1..][k] == gap[k + 1];
      GapEndsWord(s1, gap[1..]);
    }
  }

  lemma ReadItem(s: Scan, it: Item, rest: string)
    requires s.mode == Normal && !s.escaped && s.word == "" && ItemsOk([it])
    ensures var m := Meaning(it.pieces);
            var s2 := s.(words := s.words + [m]);
      && FeedAll(s, Text(it.pieces) + (it.gap + rest)) == FeedAll(s2, rest)
      && (Fits(s, Text(it.pieces) + (it.gap + rest)) <==> Short(m) && Fits(s2, rest))
  {
    var t, m := Text(it.pieces), Meaning(it.pieces);
    assert it in [it] && [it][0] == it;
    TextAppends(s, it.pieces);
    assert s.word + m == m;
    FeedConcat(s, t, it.gap + rest);
    GapEndsWord(s.(word := m), it.gap);
    FeedConcat(s.(word := m), it.gap, rest);
  }

  lemma ReadLast(s: Scan, last: seq<Piece>)
    requires s.mode == Normal && !s.escaped && s.word == "" && AllOk(last)
    ensures Finish(FeedAll(s, Text(last))) == s.words + AllWords([], last)
    ensures Fits(s, Text(last)) <==> AllShort(AllWords([], last))
  {
    var m := Meaning(last);
    TextAppends(s, last);
    assert s.word + m == m;
    assert AllWords([], last) == if m == "" then [] else [m];
    assert s.words + [] == s.words;
    assert m != "" ==> m in AllWords([], last);
  }

  predicate AllShort(words: seq<string>) {
    forall w :: w in words ==> Short(w)
  }

  lemma ShortFirst(m: string, more: seq<string>)
    ensures AllShort([m] + more) <==> Short(m) && AllShort(more)
  {
    assert m in [m] + more;
  }

  // All the words of a line; the last may be missing.
  function AllWords(items: seq<Item>, last: seq<Piece>): seq<string> {
    if items == [] then (if Meaning(last) == "" then [] else [Meaning(last)])
    else [Meaning(items[0].pieces)] + AllWords(items[1..], last)
  }

  // However its words are written, a line reads back as those words, and the tokenizer gives
  // up exactly when one of them has more than 4094 characters.
  lemma {:induction false} ReadsBackFrom(s: Scan, items: seq<Item>, last: seq<Piece>)
    requires s.mode == Normal && !s.escaped && s.word == ""
    requires ItemsOk(items) && AllOk(last)
    ensures Finish(FeedAll(s, Line(items, last))) == s.words + AllWords(items, last)
    ensures Fits(s, Line(items, last)) <==> AllShort(AllWords(items, last))
    decreases |items|
  {
    if items == [] {
      ReadLast(s, last);
    } else {
      var m, more := Meaning(items[0].pieces), AllWords(items[1..], last);
      var s2 := s.(words := s.words + [m]);
      ReadItem(s, items[0], Line(items[1..], last));
      ReadsBackFrom(s2, items[1..], last);
      ConcatAssociates(s.words, [m], more);
      ShortFirst(m, more);
    }
  }

  lemma ReadsBack(items: seq<Item>, last: seq<Piece>)
    requires ItemsOk(items) && AllOk(last)
    ensures Tokens(Line(items, last)) == AllWords(items, last)
    ensures Fits(START, Line(items, last)) <==> forall w :: w in AllWords(items, last) ==> |w| <= 4094
  {
    ReadsBackFrom(START, items, last);
  }

  // Every word can be written in each of the three styles.
  datatype Style = Backslashes | SingleQuotes | DoubleQuotes

  function Write(style: Style, word: string): (ps: seq<Piece>)
    ensures AllOk(ps) && Meaning(ps) == word
  {
    match style
    case Backslashes => WriteEscaped(word)
    case SingleQuotes => [Single(WriteBody(word, '\''))]
    case DoubleQuotes => [Double(WriteBody(word, '"'))]
  }

  function WriteEscaped(word: string): (ps: seq<Piece>)
    ensures AllOk(ps) && Meaning(ps) == word
  {
    if word == "" then [] else [Escape(word[0])] + WriteEscaped(word[1..])
  }

  function WriteBody(word: string, quote: char): (body: seq<Quoted>)
    ensures BodyOk(body, quote) && BodyMeaning(body) == word
  {
    if word == "" then []
    else [if word[0] == quote || word[0] == '\\' then Backslashed(word[0]) else Bare(word[0])]
         + WriteBody(word[1..], quote)
  }

  function WriteAll(words: seq<string>, styles: seq<Style>): (items: seq<Item>)
    requires |words| == |styles|
  {
    if words == [] then []
    else [Item(Write(styles[0], words[0]), " ")] + WriteAll(words[1..], styles[1..])
  }

  // The inverse: non-empty words of at most 4094 characters survive quoting and tokenizing.
  lemma {:induction false} WrittenWordsReadBack(words: seq<string>, styles: seq<Style>)
    requires |words| == |styles| && forall k :: 0 <= k < |words| ==> 1 <= |words[k]| <= 4094
    ensures ItemsOk(WriteAll(words, styles))
    ensures Tokens(Line(WriteAll(words, styles), [])) == words && Fits(START, Line(WriteAll(words, styles), []))
  {
    WrittenWords(words, styles);
    ReadsBack(WriteAll(words, styles), []);
  }

  lemma {:induction false} WrittenWords(words: seq<string>, styles: seq<Style>)
    requires |words| == |styles| && forall k :: 0 <= k < |words| ==> 1 <= |words[k]|
    ensures ItemsOk(WriteAll(words, styles)) && AllWords(WriteAll(words, styles), []) == words
    decreases |words|
  {
    if words != [] {
      var first, rest := Item(Write(styles[0], words[0]), " "), WriteAll(words[1..], styles[1..]);
      WrittenWords(words[1..], styles[1..]);
      assert Meaning(first.pieces) == words[0];
      ItemFirst(first, rest);
    }
  }

  lemma ItemFirst(first: Item, rest: seq<Item>)
    requires AllOk(first.pieces) && Meaning(first.pieces) != "" && IsGap(first.gap) && ItemsOk(rest)
    ensures ItemsOk([first] + rest)
    ensures AllWords([first] + rest, []) == [Meaning(first.pieces)] + AllWords(rest, [])
  {
    assert ([first] + rest)[1..] == rest;
  }

  // ---------- Splitting a line ----------

  // Words already read do not influence the ones still to come.
  lemma {:induction false} EarlierWordsStay(s: Scan, early: seq<string>, line: string)
    ensures FeedAll(s.(words := early + s.words), line) == FeedAll(s, line).(words := early + FeedAll(s, line).words)
    ensures Fits(s.(words := early + s.words), line) <==> Fits(s, line)
    decreases |line|
  {
    if line != "" {
      var t := Feed(s, line[0]);
      assert early + (s.words + [s.word]) == (early + s.words) + [s.word];
      assert Feed(s.(words := early + s.words), line[0]) == t.(words := early + t.words);
      EarlierWordsStay(t, early, line[1..]);
    }
  }

  // A line whose first part ends outside quotes, and not in a backslash, splits at a blank, a tab, a
  // line end, a vertical tab, a form feed and a carriage return.
  lemma SplitsAtBlank(a: string, c: char, b: string)
    requires FeedAll(START, a).mode == Normal && !FeedAll(START, a).escaped && (c as int == 32 || 9 <= c as int <= 13)
    ensures Tokens(a + [c] + b) == Tokens(a) + Tokens(b)
    ensures Fits(START, a + [c] + b) <==> Fits(START, a) && Fits(START, b)
  {
    var sa := FeedAll(START, a);
    var s1 := Scan(Normal, false, "", Finish(sa));
    FeedConcat(START, a + [c], b);
    FeedConcat(START, a, [c]);
    FeedOne(sa, c);
    LastFits(START, a);
    assert Finish(sa) + [] == Finish(sa);
    EarlierWordsStay(START, Finish(sa), b);
    var sb := FeedAll(START, b);
    assert (Finish(sa) + sb.words) + [sb.word] == Finish(sa) + (sb.words + [sb.word]);
  }

  // It splits at no other character.
  lemma OthersStay(c: char)
    requires c as int != 32 && !(9 <= c as int <= 13) && c != '\'' && c != '"' && c != '\\'
    ensures Tokens([c]) == [[c]]
  {
    FeedOne(START, c);
    assert !IsSpace(c);
    assert "" + [c] == [c];
  }

  // ---------- Lines that end in the middle of something ----------

  // Where the scan is behind a line of words, with the last one still open.
  lemma {:induction false} LineState(s: Scan, items: seq<Item>, last: seq<Piece>)
    requires s.mode == Normal && !s.escaped && s.word == "" && ItemsOk(items) && AllOk(last)
    ensures FeedAll(s, Line(items, last)) == s.(word := Meaning(last), words := s.words + AllWords(items, []))
    ensures Fits(s, Line(items, last)) <==> AllShort(AllWords(items, [])) && Short(Meaning(last))
    decreases |items|
  {
    if items == [] {
      TextAppends(s, last);
      assert s.word + Meaning(last) == Meaning(last);
      assert s.words + [] == s.words;
    } else {
      var m, more := Meaning(items[0].pieces), AllWords(items[1..], []);
      var s2 := s.(words := s.words + [m]);
      ReadItem(s, items[0], Line(items[1..], last));
      LineState(s2, items[1..], last);
      ConcatAssociates(s.words, [m], more);
      ShortFirst(m, more);
    }
  }

  // A quote that is never closed: what follows it belongs to the last word, and the word is kept.
  lemma OpenQuoteKept(items: seq<Item>, ps: seq<Piece>, quote: char, body: seq<Quoted>)
    requires ItemsOk(items) && AllOk(ps) && (quote == '\'' || quote == '"') && BodyOk(body, quote)
    ensures var m := Meaning(ps) + BodyMeaning(body);
            var line := Line(items, ps) + ([quote] + BodyText(body));
      && Tokens(line) == AllWords(items, []) + (if m == "" then [] else [m])
      && (Fits(START, line) <==> (forall w :: w in AllWords(items, []) ==> |w| <= 4094) && |m| <= 4094)
  {
    var before, rest := Line(items, ps), [quote] + BodyText(body);
    LineState(START, items, ps);
    var s := FeedAll(START, before);
    var inside := s.(mode := if quote == '\'' then SQuote else DQuote);
    FeedConcat(START, before, rest);
    FeedConcat(s, [quote], BodyText(body));
    FeedOne(s, quote);
    BodyAppends(inside, body, quote);
    assert [] + AllWords(items, []) == AllWords(items, []);
  }

  // A backslash with nothing behind it is nothing, in quotes or out of them.
  lemma LoneBackslash(line: string)
    requires !FeedAll(START, line).escaped
    ensures Tokens(line + "\\") == Tokens(line) && (Fits(START, line + "\\") <==> Fits(START, line))
  {
    FeedConcat(START, line, "\\");
    FeedOne(FeedAll(START, line), '\\');
    LastFits(START, line);
  }
}
