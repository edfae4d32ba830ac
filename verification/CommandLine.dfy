/** Splitting a command line into arguments, in two passes over the same text. */
module CommandLine {
  import opened Words

  type wchar = c: int | 0 <= c < 0x1_0000

  const NUL: wchar := 0
  const TAB: wchar := 9
  const BLANK: wchar := 32
  const QUOTE: wchar := 34

  // ---------------------------------------------------------------- tokens

  /** An argument of a text: its characters are those from `begin` up to `end`. */
  datatype Token = Token(begin: nat, end: nat)

  predicate IsText(t: seq<wchar>)
  {
    NUL !in t
  }

  /** First position from `at` on that holds `c`, or the end of the text. */
  function Find(t: seq<wchar>, at: nat, c: wchar): (r: nat)
    requires at <= |t|
    ensures at <= r <= |t|
    ensures forall i | at <= i < r :: t[i] != c
    ensures r < |t| ==> t[r] == c
    decreases |t| - at
  {
    if at == |t| || t[at] == c then at else Find(t, at + 1, c)
  }

  function SkipBlanks(t: seq<wchar>, at: nat): (r: nat)
    requires at <= |t|
    ensures at <= r <= |t|
    ensures forall i | at <= i < r :: t[i] == TAB || t[i] == BLANK
    ensures r < |t| ==> t[r] != TAB && t[r] != BLANK
    decreases |t| - at
  {
    if at < |t| && (t[at] == TAB || t[at] == BLANK) then SkipBlanks(t, at + 1) else at
  }

  /** The argument that starts at `at`. A quote runs to the next quote, anything else to the next
      blank; the character it starts with never ends it. */
  function TokenAt(t: seq<wchar>, at: nat): (token: Token)
    requires at < |t|
    ensures at <= token.begin <= token.end <= |t| && at < token.end + (if token.end == |t| then 1 else 0)
  {
    if t[at] == QUOTE then Token(at + 1, Find(t, at + 1, QUOTE)) else Token(at, Find(t, at + 1, BLANK))
  }

  /** Where the next argument may start: the separator is used up, blanks and tabs are skipped. */
  function NextAt(t: seq<wchar>, at: nat): (r: nat)
    requires at < |t|
    ensures at < r <= |t| && TokenAt(t, at).end <= r
    ensures TokenAt(t, at).end < |t| ==> TokenAt(t, at).end < r
  {
    var end := TokenAt(t, at).end;
    SkipBlanks(t, if end < |t| then end + 1 else end)
  }

  function Tokens(t: seq<wchar>, at: nat): seq<Token>
    requires at <= |t|
    decreases |t| - at
  {
    if at == |t| then [] else [TokenAt(t, at)] + Tokens(t, NextAt(t, at))
  }

  /** Tokens inside a stretch of the text, in order, with at least a separator between two. */
  ghost predicate Apart(tokens: seq<Token>, from: nat, to: nat)
  {
    && (forall k | 0 <= k < |tokens| :: from <= tokens[k].begin <= tokens[k].end <= to)
    && (forall j, k | 0 <= j < k < |tokens| :: tokens[j].end < tokens[k].begin)
  }

  /** The arguments of a text lie apart in it. */
  lemma {:induction false} TokensAreApart(t: seq<wchar>, at: nat)
    requires at <= |t|
    ensures Apart(Tokens(t, at), at, |t|)
    decreases |t| - at
  {
    if at < |t| {
      var next := NextAt(t, at);
      TokensAreApart(t, next);
      PrependToken(TokenAt(t, at), Tokens(t, next), at, next, |t|);
    }
  }

  /** Between the arguments lie only separators: a character that belongs to none of them is a
      blank, a tab or a quote. */
  ghost predicate Covers(t: seq<wchar>, tokens: seq<Token>, at: nat)
  {
    forall i | at <= i < |t| && t[i] != TAB && t[i] != BLANK && t[i] != QUOTE ::
      exists k | 0 <= k < |tokens| :: tokens[k].begin <= i < tokens[k].end
  }

  lemma {:induction false} NothingIsLost(t: seq<wchar>, at: nat)
    requires at <= |t|
    ensures Covers(t, Tokens(t, at), at)
    decreases |t| - at
  {
    hide Find, SkipBlanks;
    if at < |t| {
      var next := NextAt(t, at);
      var token, rest := TokenAt(t, at), Tokens(t, next);
      NothingIsLost(t, next);
      var tokens := [token] + rest;
      forall i | at <= i < |t| && t[i] != TAB && t[i] != BLANK && t[i] != QUOTE
        ensures exists k | 0 <= k < |tokens| :: tokens[k].begin <= i < tokens[k].end
      {
        if i < next {
          assert tokens[0].begin <= i < tokens[0].end;
        } else {
          var k :| 0 <= k < |rest| && rest[k].begin <= i < rest[k].end;
          assert tokens[k + 1] == rest[k];
        }
      }
    }
  }

  /** Every argument is delimited as its first character asks: after a quote it holds no quote and
      ends at one, otherwise it holds no blank behind its first character and ends at one. */
  lemma {:induction false} TokensAreDelimited(t: seq<wchar>, at: nat, k: nat)
    requires at <= |t| && k < |Tokens(t, at)|
    ensures var Token(begin, end) := Tokens(t, at)[k];
            && begin <= end <= |t|
            && (|| (begin > 0 && t[begin - 1] == QUOTE && QUOTE !in t[begin..end] && (end < |t| ==> t[end] == QUOTE))
                || (begin < end && t[begin] != QUOTE && BLANK !in t[begin + 1..end] && (end < |t| ==> t[end] == BLANK)))
    decreases |t| - at
  {
    hide Find, SkipBlanks;
    if k > 0 {
      TokensAreDelimited(t, NextAt(t, at), k - 1);
      assert Tokens(t, at)[k] == Tokens(t, NextAt(t, at))[k - 1];
    }
  }

  /** Where the text of an argument starts: at its opening quote, if it has one. */
  predicate StartsAt(t: seq<wchar>, token: Token, start: nat)
  {
    start < |t| && token.begin == if t[start] == QUOTE then start + 1 else start
  }

  predicate AllBlank(t: seq<wchar>, from: nat, to: nat)
  {
    forall i | from <= i < to && i < |t| :: t[i] == TAB || t[i] == BLANK
  }

  /** `b` starts at the first character behind the separator of `a` that is neither blank nor tab. */
  ghost predicate Follows(t: seq<wchar>, a: Token, b: Token)
  {
    exists start: nat :: StartsAt(t, b, start) && IsNextStart(t, a.end, start)
  }

  predicate IsNextStart(t: seq<wchar>, end: nat, start: nat)
  {
    end < start < |t| && t[start] != TAB && t[start] != BLANK && AllBlank(t, end + 1, start)
  }

  /** The first argument starts with the text, even at a blank; every other one at the first character
      that is neither blank nor tab behind the separator of the one before; and behind the separator
      of the last there are only blanks and tabs. */
  lemma {:induction false} ArgumentsFollowEachOther(t: seq<wchar>, at: nat)
    requires at <= |t|
    ensures var tokens := Tokens(t, at);
            && (tokens == [] <==> at == |t|)
            && (tokens != [] ==> StartsAt(t, tokens[0], at))
            && (forall k | 0 <= k < |tokens| - 1 :: Follows(t, tokens[k], tokens[k + 1]))
            && (tokens != [] ==> AllBlank(t, tokens[|tokens| - 1].end + 1, |t|))
    decreases |t| - at
  {
    hide AllBlank, StartsAt, Follows, NextAt, TokenAt;
    if at < |t| {
      var next := NextAt(t, at);
      var token, rest := TokenAt(t, at), Tokens(t, next);
      var tokens := [token] + rest;
      ArgumentsFollowEachOther(t, next);
      FirstFollows(t, at);
      forall k | 0 <= k < |tokens| - 1 ensures Follows(t, tokens[k], tokens[k + 1]) {
        if k > 0 {
          assert tokens[k] == rest[k - 1] && tokens[k + 1] == rest[k];
        }
      }
    }
  }

  lemma FirstFollows(t: seq<wchar>, at: nat)
    requires at < |t|
    ensures StartsAt(t, TokenAt(t, at), at) && AllBlank(t, TokenAt(t, at).end + 1, NextAt(t, at))
    ensures NextAt(t, at) < |t| ==> Follows(t, TokenAt(t, at), TokenAt(t, NextAt(t, at)))
  {
    hide Find;
    var next := NextAt(t, at);
    if next < |t| {
      assert StartsAt(t, TokenAt(t, next), next) && IsNextStart(t, TokenAt(t, at).end, next);
    }
  }

  lemma PrependToken(token: Token, rest: seq<Token>, at: nat, next: nat, to: nat)
    requires Apart(rest, next, to) && at <= token.begin <= token.end <= next <= to
    requires rest != [] ==> token.end < next
    ensures Apart([token] + rest, at, to)
  {
  }

  // ---------------------------------------------------------------- the pass

  /** The buffer after the filling pass: the text with a NUL behind it and in place of every
      separator that ended an argument. */
  function Filled(t: seq<wchar>, tokens: seq<Token>): (b: seq<wchar>)
    ensures |b| == |t| + 1
  {
    seq(|t| + 1, i requires 0 <= i < |t| + 1 => if i == |t| || IsEnd(tokens, i) then NUL else t[i])
  }

  predicate IsEnd(tokens: seq<Token>, i: int)
  {
    exists k | 0 <= k < |tokens| :: tokens[k].end == i
  }

  /** The inner loop: runs to the separator that ends the argument, or to the end of the text;
      the filling pass puts a NUL over the separator. Stops behind the separator. */
  method EndArgument(buffer: array<wchar>, fill: bool, from: nat, separator: wchar, ghost t: seq<wchar>)
    returns (at: nat)
    requires IsText(t) && buffer.Length == |t| + 1 && from <= |t| && separator != NUL
    requires forall i | from <= i <= |t| :: buffer[i] == (t + [NUL])[i]
    modifies buffer
    ensures var end := Find(t, from, separator);
            && at == (if end < |t| then end + 1 else end)
            && buffer[..] == if fill && end < |t| then old(buffer[..])[end := NUL] else old(buffer[..])
  {
    at := from;
    while true
      invariant from <= at <= |t| && Find(t, from, separator) == Find(t, at, separator)
      invariant buffer[..] == old(buffer[..])
      decreases |t| - at
    {
      var ch := buffer[at];
      assert ch == (t + [NUL])[at] && (ch == NUL <==> at == |t|);
      if ch == separator {
        if fill {
          buffer[at] := NUL;
        }
        at := at + 1;
        return at;
      } else if ch == NUL {
        return at;
      }
      at := at + 1;
    }
  }

  method SkipSeparators(buffer: array<wchar>, from: nat, ghost t: seq<wchar>) returns (at: nat)
    requires buffer.Length == |t| + 1 && from <= |t|
    requires forall i | from <= i <= |t| :: buffer[i] == (t + [NUL])[i]
    ensures at == SkipBlanks(t, from)
  {
    at := from;
    while buffer[at] == TAB || buffer[at] == BLANK
      invariant from <= at <= |t| && SkipBlanks(t, from) == SkipBlanks(t, at)
      decreases |t| - at
    {
      assert buffer[at] == (t + [NUL])[at];
      at := at + 1;
    }
    assert buffer[at] == (t + [NUL])[at];
  }

  /** The part of the buffer the filling pass has gone over. */
  ghost predicate FilledBelow(b: seq<wchar>, t: seq<wchar>, done: seq<Token>, at: nat)
  {
    && |b| == |t| + 1 && at <= |t|
    && (forall i | at <= i <= |t| :: b[i] == (t + [NUL])[i])
    && (forall i | 0 <= i < at :: b[i] == if IsEnd(done, i) then NUL else t[i])
    && (forall k | 0 <= k < |done| :: done[k].end <= at && (done[k].end == at ==> at == |t|))
  }

  lemma FillOne(b: seq<wchar>, t: seq<wchar>, done: seq<Token>, at: nat)
    requires FilledBelow(b, t, done, at) && at < |t|
    ensures var end := TokenAt(t, at).end;
            FilledBelow(if end < |t| then b[end := NUL] else b, t, done + [TokenAt(t, at)], NextAt(t, at))
  {
    hide Find, SkipBlanks;
    var token := TokenAt(t, at);
    var more := done + [token];
    forall i ensures IsEnd(more, i) <==> IsEnd(done, i) || token.end == i {
      if IsEnd(done, i) {
        var k :| 0 <= k < |done| && done[k].end == i;
        assert more[k].end == i;
      }
      if token.end == i {
        assert more[|done|].end == i;
      }
    }
  }

  lemma NothingFilled(t: seq<wchar>)
    ensures FilledBelow(t + [NUL], t, [], 0)
  {
  }

  lemma StillText(b: seq<wchar>, t: seq<wchar>, done: seq<Token>, at: nat)
    requires FilledBelow(b, t, done, at)
    ensures |b| == |t| + 1 && forall i | at <= i <= |t| :: b[i] == (t + [NUL])[i]
  {
  }

  lemma FilledWhole(b: seq<wchar>, t: seq<wchar>, tokens: seq<Token>)
    requires FilledBelow(b, t, tokens, |t|)
    ensures b == Filled(t, tokens)
  {
  }

  /** One round of the outer loop after its test for the end: takes the argument at `start` and
      answers where it begins and where the next one may. `b` is the buffer the filling pass
      would have. */
  method TakeArgument(buffer: array<wchar>, fill: bool, start: nat, ghost t: seq<wchar>, ghost b: seq<wchar>,
                      ghost done: seq<Token>)
    returns (begin: nat, at: nat, ghost b': seq<wchar>)
    requires IsText(t) && start < |t| && FilledBelow(b, t, done, start)
    requires buffer[..] == if fill then b else t + [NUL]
    modifies buffer
    ensures begin == TokenAt(t, start).begin && at == NextAt(t, start)
    ensures FilledBelow(b', t, done + [TokenAt(t, start)], at)
    ensures buffer[..] == if fill then b' else t + [NUL]
  {
    hide Find, SkipBlanks, FilledBelow, NextAt;
    StillText(b, t, done, start);
    assert forall i | start <= i <= |t| :: buffer[..][i] == (t + [NUL])[i];
    FillOne(b, t, done, start);
    NextIs(t, start);
    var separator := buffer[start];
    assert separator == (t + [NUL])[start];
    at := start + 1;
    if separator != QUOTE {
      separator := BLANK;
    }
    begin := at - 1 + if separator == QUOTE then 1 else 0;
    ghost var end := TokenAt(t, start).end;
    assert end == Find(t, at, separator);
    b' := if end < |t| then b[end := NUL] else b;
    at := EndArgument(buffer, fill, at, separator, t);
    assert forall i | at <= i <= |t| :: buffer[..][i] == (t + [NUL])[i];
    at := SkipSeparators(buffer, at, t);
  }

  lemma NextIs(t: seq<wchar>, at: nat)
    requires at < |t|
    ensures var end := TokenAt(t, at).end;
            NextAt(t, at) == SkipBlanks(t, if end < |t| then end + 1 else end)
  {
  }

  lemma TokensStep(t: seq<wchar>, at: nat)
    requires at <= |t|
    ensures Tokens(t, at) == if at == |t| then [] else [TokenAt(t, at)] + Tokens(t, NextAt(t, at))
  {
  }

  /** The argument vector: where each argument begins. */
  function Begins(tokens: seq<Token>): (argv: seq<Option<nat>>)
    ensures |argv| == |tokens|
  {
    seq(|tokens|, k requires 0 <= k < |tokens| => Some(tokens[k].begin))
  }

  lemma StoreBegin(done: seq<Token>, token: Token, old_: seq<Option<nat>>)
    requires |done| < |old_|
    ensures (Begins(done) + old_[|done|..])[|done| := Some(token.begin)] == Begins(done + [token]) + old_[|done| + 1..]
  {
  }

  /** CmdLineToArgvWorkerW on a NUL-terminated text. Without `argv` it only counts; with it, it
      stores where each argument starts and ends each with a NUL. */
  method CmdLineToArgvWorkerW(buffer: array<wchar>, argv: array?<Option<nat>>, ghost t: seq<wchar>)
    returns (argc: nat, length: nat)
    requires IsText(t) && buffer[..] == t + [NUL]
    requires argv != null ==> argv.Length >= |Tokens(t, 0)|
    modifies buffer, argv
    ensures argc == |Tokens(t, 0)| && length == |t| + 1
    ensures buffer[..] == if argv == null then t + [NUL] else Filled(t, Tokens(t, 0))
    ensures argv != null ==> argv[..] == Begins(Tokens(t, 0)) + old(argv[..])[argc..]
  {
    hide Tokens, TokenAt, FilledBelow, Filled, NextAt, Begins;
    var at: nat := 0;
    argc := 0;
    ghost var done: seq<Token> := [];
    ghost var b: seq<wchar> := t + [NUL];
    NothingFilled(t);
    while true
      invariant at <= |t| && argc == |done| && Tokens(t, 0) == done + Tokens(t, at)
      invariant FilledBelow(b, t, done, at) && buffer[..] == if argv == null then t + [NUL] else b
      invariant argv != null ==> argc <= argv.Length && argv[..] == Begins(done) + old(argv[..])[argc..]
      decreases |t| - at
    {
      StillText(b, t, done, at);
      assert buffer[..][at] == (t + [NUL])[at];
      if buffer[at] == NUL {
        break;
      }
      ghost var token := TokenAt(t, at);
      TokensStep(t, at);
      var begin, next;
      begin, next, b := TakeArgument(buffer, argv != null, at, t, b, done);
      argc := argc + 1;
      if argv != null {
        StoreBegin(done, token, old(argv[..]));
        argv[argc - 1] := Some(begin);
      }
      assert done + ([token] + Tokens(t, next)) == (done + [token]) + Tokens(t, next);
      at := next;
      done := done + [token];
    }
    TokensStep(t, at);
    FilledWhole(b, t, done);
    assert done + [] == done;
    length := at + 1;
  }

  // ---------------------------------------------------------------- the two passes

  /** The string at an index: up to the next NUL. */
  function StringAt(b: seq<wchar>, at: nat): seq<wchar>
    decreases |b| - at
  {
    if at >= |b| || b[at] == NUL then [] else [b[at]] + StringAt(b, at + 1)
  }

  lemma {:induction false} StringUpTo(b: seq<wchar>, at: nat, end: nat)
    requires at <= end < |b| && b[end] == NUL && forall i | at <= i < end :: b[i] != NUL
    ensures StringAt(b, at) == b[at..end]
    decreases end - at
  {
    if at < end {
      StringUpTo(b, at + 1, end);
    }
  }

  /** In the filled buffer, the string where an argument begins is that argument. */
  lemma ArgumentsSurvive(t: seq<wchar>, k: nat)
    requires IsText(t) && k < |Tokens(t, 0)|
    ensures var Token(begin, end) := Tokens(t, 0)[k];
            begin <= end <= |t| && StringAt(Filled(t, Tokens(t, 0)), begin) == t[begin..end]
  {
    hide Tokens;
    var tokens := Tokens(t, 0);
    TokensAreApart(t, 0);
    var Token(begin, end) := tokens[k];
    var b := Filled(t, tokens);
    assert tokens[k].end == end;
    forall i | begin <= i < end ensures b[i] == t[i] && b[i] != NUL {
      assert t[i] in t;
      forall j | 0 <= j < |tokens| ensures tokens[j].end != i {
        if j < k {
          assert tokens[j].end < tokens[k].begin;
        } else if j > k {
          assert tokens[k].end < tokens[j].begin;
        }
      }
    }
    StringUpTo(b, begin, end);
    assert b[begin..end] == t[begin..end];
  }

  /** CmdLineToArgvW: counts on the caller's text, allocates, copies, and fills the copy. The
      vector ends with a null; each entry before it points into the copy, at the NUL-terminated
      text of its argument; the caller's text is not touched. */
  method CmdLineToArgvW(pszCmdLine: array<wchar>, ghost t: seq<wchar>, grant: bool)
    returns (argv: array?<Option<nat>>, copy: array?<wchar>, argc: nat)
    requires IsText(t) && pszCmdLine[..] == t + [NUL]
    modifies pszCmdLine
    ensures pszCmdLine[..] == old(pszCmdLine[..])
    ensures argv == null <==> !grant
    ensures argv != null ==>
              && fresh(argv) && copy != null && fresh(copy) && copy.Length == |t| + 1
              && argc == |Tokens(t, 0)| && argv.Length == argc + 1 && argv[argc] == None
              && forall k | 0 <= k < argc ::
                   var Token(begin, end) := Tokens(t, 0)[k];
                   && argv[k] == Some(begin) && begin <= end <= |t| && begin < copy.Length
                   && StringAt(copy[..], begin) == t[begin..end]
  {
    hide Tokens, Filled, StringAt;
    var length;
    argc, length := CmdLineToArgvWorkerW(pszCmdLine, null, t);
    if !grant {
      return null, null, argc;
    }
    argv := new Option<nat>[argc + 1](_ => None);
    copy := new wchar[length];
    forall i | 0 <= i < length {
      copy[i] := pszCmdLine[i];
    }
    assert copy[..] == t + [NUL];
    argv[argc] := None;
    argc, length := CmdLineToArgvWorkerW(copy, argv, t);
    forall k | 0 <= k < argc
      ensures var Token(begin, end) := Tokens(t, 0)[k];
              begin <= end <= |t| && StringAt(copy[..], begin) == t[begin..end]
    {
      ArgumentsSurvive(t, k);
    }
  }
}
