/** What is read from a first line, whatever white space is between its words, and what is refused
    (RFC 2616, sections 5.1 and 6.1). */
module FirstLines {
  import opened Bytes
  import opened Decimal
  import opened ParsingHelpers
  import opened Chunking

  predicate IsWord(w: string) { w != "" && AllIn(Word, w) }

  predicate IsSpace(g: string) { g != "" && AllIn(Blank, g) }

  predicate IsReason(w: string) { w != "" && !IsWS(w[0]) && AllIn(Line, w) }

  lemma WordThen(g: string, w: string, y: string)
    requires AllIn(Blank, g) && IsWord(w) && y != "" && IsWS(y[0])
    ensures NextToken(g + (w + y), Word) == Complete(w, y)
  {
    hide NextToken;
    var s := g + (w + y);
    NextTokenOn(Word, g, w, y, |s|);
    assert s[..|s|] == s && y[..|y|] == y;
  }

  lemma ReasonThen(g: string, w: string, y: string)
    requires AllIn(Blank, g) && IsReason(w) && y != "" && IsNewLine(y[0])
    ensures NextToken(g + (w + y), Line) == Complete(w, y)
  {
    hide NextToken;
    var s := g + (w + y);
    NextTokenOn(Line, g, w, y, |s|);
    assert s[..|s|] == s && y[..|y|] == y;
  }

  lemma SpaceThen(g: string, y: string)
    requires IsSpace(g)
    ensures g + y != "" && IsWS((g + y)[0])
  {
    assert (g + y)[0] == g[0];
  }

  /** Three words are a request line exactly when the first is one of the eight methods and the third
      one of the two protocols; the first is looked at first. */
  lemma RequestLineAnswers(g0: string, w1: string, g1: string, w2: string, g2: string, w3: string, y: string)
    requires AllIn(Blank, g0) && IsSpace(g1) && IsSpace(g2) && IsWord(w1) && IsWord(w2) && IsWord(w3)
    requires y != "" && IsWS(y[0])
    ensures ExtractRequestLine(g0 + (w1 + (g1 + (w2 + (g2 + (w3 + y))))))
         == if !KnownMethod(w1) then Failed(UnknownMethod(w1))
            else if !KnownProtocol(w3) then Failed(UnsupportedProtocol(w3))
            else Complete(RequestLine(w1, w2, w3), y)
  {
    hide NextToken, IsWord, IsSpace;
    KnownIsSupported(w1);
    KnownIsSupported(w3);
    hide SUPPORTED_METHODS, SUPPORTED_PROTOCOLS, KnownMethod, KnownProtocol;
    SpaceThen(g1, w2 + (g2 + (w3 + y)));
    SpaceThen(g2, w3 + y);
    WordThen(g0, w1, g1 + (w2 + (g2 + (w3 + y))));
    SpaceIsBlank(g1);
    SpaceIsBlank(g2);
    WordThen(g1, w2, g2 + (w3 + y));
    WordThen(g2, w3, y);
  }

  lemma SpaceIsBlank(g: string)
    ensures IsSpace(g) ==> AllIn(Blank, g)
  {
  }

  /** Two words and a reason are a status line exactly when the first word is one of the two protocols
      and the second is an unsigned number of 32 bits; the first is looked at first. */
  lemma StatusLineAnswers(g0: string, w1: string, g1: string, w2: string, g2: string, reason: string, y: string)
    requires AllIn(Blank, g0) && IsSpace(g1) && IsSpace(g2) && IsWord(w1) && IsWord(w2) && IsReason(reason)
    requires y != "" && IsNewLine(y[0])
    ensures ExtractStatusLine(g0 + (w1 + (g1 + (w2 + (g2 + (reason + y))))))
         == if !KnownProtocol(w1) then Failed(UnsupportedProtocol(w1))
            else if ParseUnsigned(w2, 0x1_0000_0000).None? then Failed(BadLexicalCast(w2))
            else Complete(StatusLine(w1, ParseUnsigned(w2, 0x1_0000_0000).value, reason), y)
  {
    hide NextToken, IsWord, IsSpace, IsReason, ParseUnsigned;
    KnownIsSupported(w1);
    hide SUPPORTED_PROTOCOLS, KnownProtocol;
    SpaceThen(g1, w2 + (g2 + (reason + y)));
    SpaceThen(g2, reason + y);
    SpaceIsBlank(g1);
    SpaceIsBlank(g2);
    WordThen(g0, w1, g1 + (w2 + (g2 + (reason + y))));
    WordThen(g1, w2, g2 + (reason + y));
    ReasonThen(g2, reason, y);
  }

  // --- What is not there yet ----------------------------------------------------------------------

  lemma TokenWaits(k: CharClass, g: string, w: string)
    requires AllIn(Blank, g) && AllIn(k, w) && (w == "" || !IsWS(w[0]))
    ensures NextToken(g + w, k) == Incomplete
  {
    SpanConcat(Blank, g, w);
    SpanIs(Blank, w, 0);
    SpanIs(k, w, |w|);
    assert (g + w)[|g|..] == w;
  }

  lemma PartOfWordWaits(g: string, w: string)
    requires AllIn(Blank, g) && AllIn(Word, w)
    ensures NextToken(g + w, Word) == Incomplete
  {
    TokenWaits(Word, g, w);
  }

  /** A request line waits for the byte behind its next word, unless its method is refused. */
  lemma RequestLineWaits(g0: string, w1: string, g1: string, w2: string, g2: string, w: string)
    requires AllIn(Blank, g0) && IsSpace(g1) && IsSpace(g2) && KnownMethod(w1) && IsWord(w2) && AllIn(Word, w)
    ensures ExtractRequestLine(g0 + w) == Incomplete
    ensures ExtractRequestLine(g0 + (w1 + (g1 + w))) == Incomplete
    ensures ExtractRequestLine(g0 + (w1 + (g1 + (w2 + (g2 + w))))) == Incomplete
  {
    hide NextToken, IsSpace;
    KnownIsSupported(w1);
    MethodIsWord(w1);
    hide SUPPORTED_METHODS, SUPPORTED_PROTOCOLS, KnownMethod, IsWord;
    SpaceIsBlank(g1);
    SpaceIsBlank(g2);
    PartOfWordWaits(g0, w);
    SpaceThen(g1, w);
    WordThen(g0, w1, g1 + w);
    PartOfWordWaits(g1, w);
    SpaceThen(g1, w2 + (g2 + w));
    SpaceThen(g2, w);
    WordThen(g0, w1, g1 + (w2 + (g2 + w)));
    WordThen(g1, w2, g2 + w);
    PartOfWordWaits(g2, w);
  }

  /** The method is refused as soon as the byte behind it is there. */
  lemma MethodIsRefusedFirst(g0: string, w1: string, y: string)
    requires AllIn(Blank, g0) && IsWord(w1) && !KnownMethod(w1) && y != "" && IsWS(y[0])
    ensures ExtractRequestLine(g0 + (w1 + y)) == Failed(UnknownMethod(w1))
  {
    hide NextToken;
    KnownIsSupported(w1);
    WordThen(g0, w1, y);
  }

  predicate IsPartOfReason(w: string) { w == "" || IsReason(w) }

  /** A status line waits for the byte behind its reason, unless its protocol is refused; its code is
      not looked at before that. */
  lemma StatusLineWaits(g0: string, w1: string, g1: string, w2: string, g2: string, w: string, part: string)
    requires AllIn(Blank, g0) && IsSpace(g1) && IsSpace(g2) && KnownProtocol(w1) && IsWord(w2)
    requires AllIn(Word, w) && IsPartOfReason(part)
    ensures ExtractStatusLine(g0 + w) == Incomplete
    ensures ExtractStatusLine(g0 + (w1 + (g1 + w))) == Incomplete
    ensures ExtractStatusLine(g0 + (w1 + (g1 + (w2 + (g2 + part))))) == Incomplete
  {
    hide NextToken, IsSpace;
    KnownIsSupported(w1);
    ProtocolIsWord(w1);
    hide SUPPORTED_PROTOCOLS, KnownProtocol, IsWord;
    SpaceIsBlank(g1);
    SpaceIsBlank(g2);
    PartOfWordWaits(g0, w);
    SpaceThen(g1, w);
    WordThen(g0, w1, g1 + w);
    PartOfWordWaits(g1, w);
    SpaceThen(g1, w2 + (g2 + part));
    SpaceThen(g2, part);
    WordThen(g0, w1, g1 + (w2 + (g2 + part)));
    WordThen(g1, w2, g2 + part);
    TokenWaits(Line, g2, part);
  }

  /** The protocol is refused as soon as the byte behind it is there. */
  lemma ProtocolIsRefusedFirst(g0: string, w1: string, y: string)
    requires AllIn(Blank, g0) && IsWord(w1) && !KnownProtocol(w1) && y != "" && IsWS(y[0])
    ensures ExtractStatusLine(g0 + (w1 + y)) == Failed(UnsupportedProtocol(w1))
  {
    hide NextToken;
    KnownIsSupported(w1);
    WordThen(g0, w1, y);
  }
}
