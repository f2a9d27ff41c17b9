/** toJSON of internal/jsonx/jsonc.go: comments and trailing commas become blanks, in a copy or in
    place, as a forward automaton over the input says. */
module Jsonc {
  import opened Bytes

  const TAB: byte := 9
  const LF: byte := 10
  const CR: byte := 13
  const SPACE: byte := 32
  const QUOTE: byte := 34
  const STAR: byte := 42
  const COMMA: byte := 44
  const SLASH: byte := 47
  const RBRACKET: byte := 93
  const BACKSLASH: byte := 92
  const RBRACE: byte := 125

  // ---- The automaton --------------------------------------------------------------------------

  /** What the byte about to be read belongs to: code, the second byte of a comment opener, a line
      comment, a block comment, the second byte of a closer, a string, or the byte behind a
      backslash in a string. */
  datatype Mode = Code | LineOpen | Line | BlockOpen | Block | BlockClose | Str | Escaped

  predicate Next(s: bytes, i: nat, c: byte) {
    i + 1 < |s| && s[i + 1] == c
  }

  function Step(m: Mode, s: bytes, i: nat): Mode
    requires i < |s|
  {
    match m
    case Code =>
      if s[i] == SLASH && Next(s, i, SLASH) then LineOpen
      else if s[i] == SLASH && Next(s, i, STAR) then BlockOpen
      else if s[i] == QUOTE then Str
      else Code
    case LineOpen => Line
    case Line => if s[i] == LF then Code else Line
    case BlockOpen => Block
    case Block => if s[i] == STAR && Next(s, i, SLASH) then BlockClose else Block
    case BlockClose => Code
    case Str => if s[i] == BACKSLASH then Escaped else if s[i] == QUOTE then Code else Str
    case Escaped => Str
  }

  function ModeAt(s: bytes, i: nat): Mode
    requires i <= |s|
  {
    if i == 0 then Code else Step(ModeAt(s, i - 1), s, i - 1)
  }

  predicate OpensComment(s: bytes, i: nat)
    requires i < |s|
  {
    s[i] == SLASH && (Next(s, i, SLASH) || Next(s, i, STAR))
  }

  /** A block comment opened at p runs to the end of the input. */
  ghost predicate UnclosedFrom(s: bytes, p: nat)
    requires p < |s|
  {
    && ModeAt(s, p) == Code && s[p] == SLASH && Next(s, p, STAR)
    && forall q :: p + 2 <= q <= |s| ==> ModeAt(s, q) == Block
  }

  predicate Whitespace(c: byte) {
    c == LF || c == TAB || c == CR
  }

  /** Byte i without its comment. */
  ghost function Strip(s: bytes, i: nat): byte
    requires i < |s|
  {
    match ModeAt(s, i)
    case Code => if OpensComment(s, i) && !UnclosedFrom(s, i) then SPACE else s[i]
    case LineOpen => SPACE
    case BlockOpen => if i > 0 && UnclosedFrom(s, i - 1) then s[i] else SPACE
    case Line => if Whitespace(s[i]) then s[i] else SPACE
    case Block => if Whitespace(s[i]) then s[i] else SPACE
    case BlockClose => SPACE
    case Str => s[i]
    case Escaped => s[i]
  }

  predicate Closer(s: bytes, j: nat)
    requires j < |s|
  {
    ModeAt(s, j) == Code && (s[j] == RBRACE || s[j] == RBRACKET)
  }

  /** The next byte above blank behind i, up to position end, is a closing bracket in code. */
  ghost predicate Trailing(s: bytes, i: nat, end: nat)
    requires i < |s| && end <= |s|
  {
    exists j :: i < j < end && Closer(s, j) && forall k :: i < k < j ==> Strip(s, k) <= SPACE
  }

  /** Byte i of the output when the brackets before end have been seen. */
  ghost function OutputUpto(s: bytes, i: nat, end: nat): byte
    requires i < |s| && end <= |s|
  {
    if Strip(s, i) == COMMA && ModeAt(s, i) == Code && Trailing(s, i, end) then SPACE else Strip(s, i)
  }

  /** The specification of toJSON. */
  ghost function Output(s: bytes): bytes {
    seq(|s|, i requires 0 <= i < |s| => OutputUpto(s, i, |s|))
  }

  // ---- What the specification says ---------------------------------------------------------

  /** Same length, line breaks exactly where they were, strings untouched, comments blank but for
      white space, and no other change than to commas that trail. */
  lemma OutputShape(s: bytes, i: nat)
    requires i < |s|
    ensures |Output(s)| == |s|
    ensures Output(s)[i] == LF <==> s[i] == LF
    ensures ModeAt(s, i) in {Str, Escaped} ==> Output(s)[i] == s[i]
    ensures ModeAt(s, i) in {LineOpen, Line, Block, BlockClose} ==>
              Output(s)[i] == if Whitespace(s[i]) then s[i] else SPACE
    ensures ModeAt(s, i) == Code && OpensComment(s, i) ==> Output(s)[i] == if UnclosedFrom(s, i) then SLASH else SPACE
    ensures ModeAt(s, i) == Code && !OpensComment(s, i) ==>
              Output(s)[i] == if s[i] == COMMA && Trailing(s, i, |s|) then SPACE else s[i]
  {
    CodeOfSlash(s, i);
  }

  lemma CodeOfSlash(s: bytes, i: nat)
    requires i < |s|
    ensures ModeAt(s, i) == LineOpen ==> s[i] == SLASH
    ensures ModeAt(s, i) == BlockOpen ==> s[i] == STAR
    ensures ModeAt(s, i) == BlockClose ==> s[i] == SLASH
  {
  }

  /** A string that has gone on past a comma ends with a quote before any code follows. */
  lemma {:induction false} StringEndsWithQuote(s: bytes, m: nat, i: nat) returns (q: nat)
    requires m < i <= |s| && ModeAt(s, m) in {Str, Escaped} && ModeAt(s, i) == Code
    requires ModeAt(s, m) == Str ==> s[m] != QUOTE
    ensures m < q < i && ModeAt(s, q) == Str && s[q] == QUOTE && Strip(s, q) == QUOTE
    decreases i - m
  {
    assert ModeAt(s, m + 1) == Step(ModeAt(s, m), s, m);
    if ModeAt(s, m + 1) == Str && s[m + 1] == QUOTE {
      q := m + 1;
    } else {
      q := StringEndsWithQuote(s, m + 1, i);
    }
  }

  // ---- Extending the output ------------------------------------------------------------------

  /** d holds the output for the first n bytes, brackets before n considered. */
  ghost predicate Wrote(d: bytes, s: bytes, n: nat) {
    n <= |d| && n <= |s| && forall k :: 0 <= k < n ==> d[k] == OutputUpto(s, k, n)
  }

  /** Bytes that are not closing brackets in code leave the output before them alone. */
  lemma NoCloserKeeps(s: bytes, k: nat, a: nat, b: nat)
    requires k < a <= b <= |s| && forall j :: a <= j < b ==> !Closer(s, j)
    ensures OutputUpto(s, k, b) == OutputUpto(s, k, a)
  {
    if Trailing(s, k, b) {
      var j :| k < j < b && Closer(s, j) && forall m :: k < m < j ==> Strip(s, m) <= SPACE;
      assert j < a;
    }
    if Trailing(s, k, a) {
      var j :| k < j < a && Closer(s, j) && forall m :: k < m < j ==> Strip(s, m) <= SPACE;
    }
  }

  lemma NoCloserBehind(s: bytes, k: nat, b: nat)
    requires k < b <= |s| && forall j :: k < j < b ==> !Closer(s, j)
    ensures OutputUpto(s, k, b) == Strip(s, k)
  {
  }

  /** A stretch without closing brackets, written as stripped. */
  lemma WroteStretch(d: bytes, d': bytes, s: bytes, a: nat, b: nat)
    requires Wrote(d, s, a) && a <= b <= |s| && b <= |d'|
    requires forall k :: 0 <= k < a ==> d'[k] == d[k]
    requires forall k :: a <= k < b ==> !Closer(s, k) && d'[k] == Strip(s, k)
    ensures Wrote(d', s, b)
  {
    forall k | 0 <= k < b
      ensures d'[k] == OutputUpto(s, k, b)
    {
      if k < a {
        NoCloserKeeps(s, k, a, b);
      } else {
        NoCloserBehind(s, k, b);
      }
    }
  }

  /** Everything behind k is blank once stripped. */
  ghost predicate BlankBehind(s: bytes, k: nat, i: nat)
    requires i <= |s|
  {
    forall m :: k < m < i ==> Strip(s, m) <= SPACE
  }

  /** If all written bytes behind k are blank, they were blank already when stripped: an erased comma
      has its bracket behind it. */
  lemma BlankWrittenIsBlank(d: bytes, s: bytes, k: int, i: nat)
    requires Wrote(d, s, i) && -1 <= k < i
    requires forall m :: k < m < i ==> d[m] <= SPACE
    ensures forall m :: k < m < i ==> Strip(s, m) <= SPACE
  {
    forall m | k < m < i
      ensures Strip(s, m) <= SPACE
    {
      assert d[m] == OutputUpto(s, m, i);
      if Strip(s, m) > SPACE {
        var j :| m < j < i && Closer(s, j) && forall x :: m < x < j ==> Strip(s, x) <= SPACE;
        WrittenCloser(d, s, j, i);
      }
    }
  }

  lemma WrittenCloser(d: bytes, s: bytes, j: nat, i: nat)
    requires Wrote(d, s, i) && j < i && Closer(s, j)
    ensures d[j] == s[j] > SPACE
  {
  }

  /** What a closing bracket at i does: the last byte above blank before it, if a comma, is erased. */
  lemma BracketErases(d: bytes, d': bytes, s: bytes, i: nat, k: int)
    requires Wrote(d, s, i) && i < |s| && Closer(s, i) && -1 <= k < i < |d'|
    requires forall m :: k < m < i ==> d[m] <= SPACE
    requires k >= 0 ==> d[k] > SPACE
    requires forall m :: 0 <= m < i ==> d'[m] == if m == k && d[m] == COMMA then SPACE else d[m]
    requires d'[i] == s[i]
    ensures Wrote(d', s, i + 1)
  {
    BlankWrittenIsBlank(d, s, k, i);
    NoCloserBehind(s, i, i + 1);
    forall m | 0 <= m < i
      ensures d'[m] == OutputUpto(s, m, i + 1)
    {
      if k < m {
        BlankStays(s, m, i);
      } else if m == k {
        LastSignificant(s, m, i);
      } else {
        assert Strip(s, k) > SPACE;
        HiddenBehind(s, m, k, i);
      }
    }
  }

  lemma BlankStays(s: bytes, m: nat, i: nat)
    requires m < i < |s| && Strip(s, m) <= SPACE
    ensures OutputUpto(s, m, i + 1) == OutputUpto(s, m, i) == Strip(s, m)
  {
  }

  /** The last byte above blank before a bracket: a comma there is in code and becomes trailing. */
  lemma LastSignificant(s: bytes, m: nat, i: nat)
    requires m < i < |s| && Closer(s, i) && BlankBehind(s, m, i) && OutputUpto(s, m, i) > SPACE
    ensures OutputUpto(s, m, i + 1) == if OutputUpto(s, m, i) == COMMA then SPACE else OutputUpto(s, m, i)
  {
    assert Trailing(s, m, i + 1);
    if Strip(s, m) == COMMA && ModeAt(s, m) in {Str, Escaped} {
      var q := StringEndsWithQuote(s, m, i);
    }
  }

  /** A byte in front of one above blank does not see the bracket. */
  lemma HiddenBehind(s: bytes, m: nat, k: nat, i: nat)
    requires m < k < i < |s| && Strip(s, k) > SPACE
    ensures OutputUpto(s, m, i + 1) == OutputUpto(s, m, i)
  {
    if Trailing(s, m, i + 1) {
      var j :| m < j < i + 1 && Closer(s, j) && forall x :: m < x < j ==> Strip(s, x) <= SPACE;
      assert j < i;
      assert Trailing(s, m, i);
    }
    if Trailing(s, m, i) {
      var j :| m < j < i && Closer(s, j) && forall x :: m < x < j ==> Strip(s, x) <= SPACE;
    }
  }

  // ---- The code ------------------------------------------------------------------------------

  /** The unread part of the source is still the input, whether or not dst is the source. */
  ghost predicate Unread(src: array<byte>, s: bytes, n: nat)
    reads src
  {
    src.Length == |s| && n <= |s| && forall k :: n <= k < |s| ==> src[k] == s[k]
  }

  /** Input s, read up to i and written up to i; the two are the same position throughout. */
  ghost predicate At(src: array<byte>, dst: array<byte>, s: bytes, i: nat)
    reads src, dst
  {
    && Unread(src, s, i) && dst.Length >= |s| && Wrote(dst[..], s, i)
    && (dst != src ==> src[..] == s)
  }

  /** A stretch of comment: what was written before it is kept, the rest is stripped. */
  ghost predicate Blanked(dst: array<byte>, d: bytes, s: bytes, start: nat, from: nat, i: nat)
    reads dst
  {
    && start <= from <= i <= |s| && i <= dst.Length && start <= |d|
    && (forall k :: 0 <= k < start ==> dst[k] == d[k])
    && (forall k :: from <= k < i ==> !Closer(s, k) && dst[k] == Strip(s, k))
  }

  /** The source from i on is untouched by writes before i. */
  ghost predicate SourceKept(src: array<byte>, dst: array<byte>, s: bytes, i: nat)
    reads src
  {
    Unread(src, s, i) && (dst != src ==> src[..] == s)
  }

  /** One byte inside a comment: white space stays, anything else becomes a blank. */
  method BlankByte(src: array<byte>, dst: array<byte>, i: nat, ghost s: bytes, ghost d: bytes, ghost start: nat,
                   ghost from: nat)
    requires SourceKept(src, dst, s, i) && i < |s| && |s| <= dst.Length && Blanked(dst, d, s, start, from, i)
    requires ModeAt(s, i) == Line || (ModeAt(s, i) == Block && !(s[i] == STAR && Next(s, i, SLASH)))
    modifies dst
    ensures SourceKept(src, dst, s, i + 1) && Blanked(dst, d, s, start, from, i + 1)
    ensures forall k :: 0 <= k < i ==> dst[k] == old(dst[k])
  {
    dst[i] := if src[i] == LF || src[i] == TAB || src[i] == CR then src[i] else SPACE;
  }

  /** The two bytes of a block comment opener. */
  lemma OpenerStripped(s: bytes, p: nat)
    requires p + 1 < |s| && ModeAt(s, p) == Code && s[p] == SLASH && s[p + 1] == STAR
    ensures ModeAt(s, p + 1) == BlockOpen && ModeAt(s, p + 2) == Block
    ensures !Closer(s, p) && !Closer(s, p + 1)
    ensures Strip(s, p) == if UnclosedFrom(s, p) then SLASH else SPACE
    ensures Strip(s, p + 1) == if UnclosedFrom(s, p) then STAR else SPACE
  {
  }

  /** The two bytes of a block comment closer. */
  lemma CloserStripped(s: bytes, i: nat)
    requires i + 1 < |s| && ModeAt(s, i) == Block && s[i] == STAR && s[i + 1] == SLASH
    ensures ModeAt(s, i + 1) == BlockClose && ModeAt(s, i + 2) == Code
    ensures !Closer(s, i) && !Closer(s, i + 1) && Strip(s, i) == Strip(s, i + 1) == SPACE
  {
  }

  /** A line comment, from its two slashes through its line feed. */
  method BlankLine(src: array<byte>, dst: array<byte>, start: nat, ghost s: bytes) returns (i: nat)
    requires At(src, dst, s, start) && ModeAt(s, start) == Code && start + 1 < |s|
    requires s[start] == SLASH && s[start + 1] == SLASH
    modifies dst
    ensures start < i <= |s| && At(src, dst, s, i)
    ensures i < |s| ==> ModeAt(s, i) == Code
  {
    ghost var d := dst[..];
    assert ModeAt(s, start + 1) == LineOpen && ModeAt(s, start + 2) == Line;
    dst[start], dst[start + 1] := SPACE, SPACE;
    i := start + 2;
    while i < src.Length
      invariant start + 2 <= i && SourceKept(src, dst, s, i) && ModeAt(s, i) == Line
      invariant Blanked(dst, d, s, start, start, i)
    {
      assert ModeAt(s, i + 1) == Step(Line, s, i);
      var end := src[i] == LF;
      BlankByte(src, dst, i, s, d, start, start);
      i := i + 1;
      if end {
        break;
      }
    }
    WroteStretch(d, dst[..], s, start, i);
  }

  /** The inside of a block comment, through its closer if there is one. */
  method BlankInside(src: array<byte>, dst: array<byte>, start: nat, ghost s: bytes, ghost d: bytes)
    returns (i: nat, closed: bool)
    requires start + 2 <= |s| && SourceKept(src, dst, s, start + 2) && |s| <= dst.Length
    requires ModeAt(s, start) == Code && s[start] == SLASH && s[start + 1] == STAR
    requires Blanked(dst, d, s, start, start + 2, start + 2)
    modifies dst
    ensures start + 2 <= i <= |s| && SourceKept(src, dst, s, i) && Blanked(dst, d, s, start, start + 2, i)
    ensures if closed then ModeAt(s, i) == Code && !UnclosedFrom(s, start) else i == |s| && UnclosedFrom(s, start)
    ensures dst[start] == old(dst[start]) && dst[start + 1] == old(dst[start + 1])
  {
    OpenerStripped(s, start);
    i := start + 2;
    while i < src.Length
      invariant start + 2 <= i && SourceKept(src, dst, s, i) && Blanked(dst, d, s, start, start + 2, i)
      invariant forall q :: start + 2 <= q <= i ==> ModeAt(s, q) == Block
      invariant dst[start] == old(dst[start]) && dst[start + 1] == old(dst[start + 1])
    {
      assert ModeAt(s, i + 1) == Step(Block, s, i);
      if i < src.Length - 1 && src[i] == STAR && src[i + 1] == SLASH {
        CloserStripped(s, i);
        dst[i], dst[i + 1] := SPACE, SPACE;
        assert !UnclosedFrom(s, start);
        return i + 2, true;
      }
      BlankByte(src, dst, i, s, d, start, start + 2);
      i := i + 1;
    }
    return i, false;
  }

  /** A block comment; one that never ends gets its opener back. */
  method BlankBlock(src: array<byte>, dst: array<byte>, start: nat, ghost s: bytes) returns (i: nat)
    requires At(src, dst, s, start) && ModeAt(s, start) == Code && start + 1 < |s|
    requires s[start] == SLASH && s[start + 1] == STAR
    modifies dst
    ensures start < i <= |s| && At(src, dst, s, i)
    ensures i < |s| ==> ModeAt(s, i) == Code
  {
    ghost var d := dst[..];
    dst[start], dst[start + 1] := SPACE, SPACE;
    var closed;
    i, closed := BlankInside(src, dst, start, s, d);
    if !closed {
      dst[start], dst[start + 1] := SLASH, STAR;
    }
    OpenerStripped(s, start);
    WroteStretch(d, dst[..], s, start, i);
  }

  // ---- Strings -------------------------------------------------------------------------------

  /** How many backslashes end right before position i. */
  function Backslashes(s: bytes, i: nat): nat
    requires i <= |s|
  {
    if i > 0 && s[i - 1] == BACKSLASH then 1 + Backslashes(s, i - 1) else 0
  }

  /** Inside a string the parity of the backslashes before a byte is the automaton's escape bit. */
  lemma {:induction false} ParityIsEscape(s: bytes, open: nat, i: nat)
    requires open < i < |s| && s[open] == QUOTE && ModeAt(s, open) == Code
    requires forall k :: open < k <= i ==> ModeAt(s, k) in {Str, Escaped}
    ensures Backslashes(s, i) % 2 == 1 <==> ModeAt(s, i) == Escaped
    ensures Backslashes(s, i) < i - open
  {
    if i > open + 1 {
      ParityIsEscape(s, open, i - 1);
      assert ModeAt(s, i) == Step(ModeAt(s, i - 1), s, i - 1);
    } else {
      assert Backslashes(s, i) == 0;
      assert ModeAt(s, i) == Step(Code, s, open);
    }
  }

  /** Whether the quote at i closes the string that began at open, by counting backslashes backwards. */
  method ClosesString(src: array<byte>, open: nat, i: nat, ghost s: bytes) returns (closes: bool)
    requires src.Length == |s| && open < i < |s| && s[i] == QUOTE && s[open] == QUOTE && ModeAt(s, open) == Code
    requires forall k :: open <= k <= i ==> src[k] == s[k]
    requires forall k :: open < k <= i ==> ModeAt(s, k) in {Str, Escaped}
    ensures closes <==> ModeAt(s, i) == Str
  {
    ParityIsEscape(s, open, i);
    var j := i - 1;
    while src[j] == BACKSLASH
      invariant open <= j < i && Backslashes(s, i) == i - 1 - j + Backslashes(s, j + 1)
      decreases j
    {
      j := j - 1;
    }
    closes := (i - j) % 2 != 0;
  }

  /** A string from its opening quote on, copied byte for byte. */
  method CopyString(src: array<byte>, dst: array<byte>, open: nat, ghost s: bytes) returns (i: nat)
    requires At(src, dst, s, open) && open < |s| && ModeAt(s, open) == Code && s[open] == QUOTE
    modifies dst
    ensures open < i <= |s| && At(src, dst, s, i)
    ensures i < |s| ==> ModeAt(s, i) == Code
  {
    ghost var d := dst[..];
    dst[open] := src[open];
    assert ModeAt(s, open + 1) == Str;
    i := open + 1;
    while i < src.Length
      invariant open < i && SourceKept(src, dst, s, open) && Blanked(dst, d, s, open, open, i)
      invariant forall k :: open < k <= i ==> ModeAt(s, k) in {Str, Escaped}
    {
      assert ModeAt(s, i + 1) == Step(ModeAt(s, i), s, i);
      dst[i] := src[i];
      var closes := false;
      if src[i] == QUOTE {
        closes := ClosesString(src, open, i, s);
      }
      i := i + 1;
      if closes {
        break;
      }
    }
    WroteStretch(d, dst[..], s, open, i);
  }

  // ---- Brackets ------------------------------------------------------------------------------

  /** A closing bracket at i: a comma before it, with only blanks between, is erased. */
  method EraseComma(src: array<byte>, dst: array<byte>, i: nat, ghost s: bytes)
    requires At(src, dst, s, i) && i < |s| && Closer(s, i)
    modifies dst
    ensures At(src, dst, s, i + 1)
  {
    ghost var d := dst[..];
    dst[i] := src[i];
    var j := i - 1;
    while j >= 0 && dst[j] <= SPACE
      invariant -1 <= j < i && forall m :: j < m < i ==> dst[m] <= SPACE
      decreases j
    {
      j := j - 1;
    }
    assert forall m :: 0 <= m < i ==> dst[m] == d[m];
    if j >= 0 && dst[j] == COMMA {
      dst[j] := SPACE;
    }
    BracketErases(d, dst[..], s, i, j);
  }

  // ---- toJSON --------------------------------------------------------------------------------

  /** Aliased or not, dst ends up holding the output for the bytes that src held at the start. */
  method StripInto(src: array<byte>, dst: array<byte>)
    requires dst.Length >= src.Length
    modifies dst
    ensures dst[..src.Length] == Output(old(src[..]))
    ensures dst != src ==> src[..] == old(src[..])
  {
    ghost var s := src[..];
    var i := 0;
    while i < src.Length
      invariant i <= |s| && At(src, dst, s, i) && (i < |s| ==> ModeAt(s, i) == Code)
    {
      assert ModeAt(s, i + 1) == Step(Code, s, i);
      if src[i] == SLASH && i < src.Length - 1 && src[i + 1] == SLASH {
        i := BlankLine(src, dst, i, s);
      } else if src[i] == SLASH && i < src.Length - 1 && src[i + 1] == STAR {
        i := BlankBlock(src, dst, i, s);
      } else if src[i] == QUOTE {
        i := CopyString(src, dst, i, s);
      } else if src[i] == RBRACE || src[i] == RBRACKET {
        EraseComma(src, dst, i, s);
        i := i + 1;
      } else {
        ghost var d := dst[..];
        dst[i] := src[i];
        WroteStretch(d, dst[..], s, i, i + 1);
        i := i + 1;
      }
    }
    assert dst[..src.Length] == Output(s);
  }

  method ToJSON(src: array<byte>) returns (dst: array<byte>)
    ensures fresh(dst) && dst[..] == Output(src[..])
  {
    dst := new byte[src.Length];
    StripInto(src, dst);
    assert dst[..] == dst[..src.Length];
  }

  /** In place the result is what a copy would have been. */
  method ToJSONInPlace(src: array<byte>)
    modifies src
    ensures src[..] == Output(old(src[..]))
  {
    StripInto(src, src);
    assert src[..] == src[..src.Length];
  }
}
