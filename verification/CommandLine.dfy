// Splitting a command line in place into arguments, with quotes.
module CommandLine {

  const SPACE := 0x20
  const TABULATOR := 0x09
  const DOUBLE := 0x22
  const SINGLE := 0x27
  const MAXARG := 8
  const SCRATCH := 256

  type Text = seq<nat>

  predicate IsQuote(c: nat) { c == DOUBLE || c == SINGLE }
  predicate NoNul(s: Text) { forall i :: 0 <= i < |s| ==> s[i] != 0 }

  // ---------------------------------------------------------------------------------------------
  // What the splitting means

  /** The length of the first token of s, when quote q (or none, 0) is open. */
  function TokenLength(s: Text, q: nat): (n: nat)
    ensures n <= |s|
    decreases |s|
  {
    if s == [] then 0
    else if q != 0 then 1 + TokenLength(s[1..], if s[0] == q then 0 else q)
    else if IsQuote(s[0]) then 1 + TokenLength(s[1..], s[0])
    else if s[0] == SPACE then 0
    else 1 + TokenLength(s[1..], 0)
  }

  /** What follows the first token and the space behind it. */
  function AfterToken(s: Text): Text { Behind(s, TokenLength(s, 0)) }

  function Behind(s: Text, n: nat): Text
    requires n <= |s|
  {
    if n == |s| then [] else s[n + 1..]
  }

  function Tokens(s: Text): seq<Text>
    decreases |s|
  {
    if s == [] then [] else [s[..TokenLength(s, 0)]] + Tokens(AfterToken(s))
  }

  /** s without the quotes that open and close its quoted parts. */
  function Unquoted(s: Text, q: nat): (r: Text)
    ensures |r| <= |s|
    decreases |s|
  {
    if s == [] then []
    else if q != 0 && s[0] == q then Unquoted(s[1..], 0)
    else if q == 0 && IsQuote(s[0]) then Unquoted(s[1..], s[0])
    else [s[0]] + Unquoted(s[1..], q)
  }

  function Stripped(s: Text): (r: Text)
    ensures |r| <= |s|
    decreases |s|
  {
    if s != [] && (s[0] == SPACE || s[0] == TABULATOR) then Stripped(s[1..]) else s
  }

  predicate IsBlank(c: nat) { c == SPACE || c == TABULATOR }

  /** What is stripped are the spaces and tabs at the start, all of them and nothing else. */
  lemma {:induction false} StrippedParts(s: Text)
    ensures var n := |s| - |Stripped(s)|;
      && Stripped(s) == s[n..] && (forall i :: 0 <= i < n ==> IsBlank(s[i])) && (n < |s| ==> !IsBlank(s[n]))
    decreases |s|
  {
    if s != [] && IsBlank(s[0]) { StrippedParts(s[1..]); }
  }

  function AllUnquoted(tokens: seq<Text>): (r: seq<Text>)
    ensures |r| == |tokens| && forall i :: 0 <= i < |r| ==> r[i] == Unquoted(tokens[i], 0)
  {
    seq(|tokens|, i requires 0 <= i < |tokens| => Unquoted(tokens[i], 0))
  }

  function First(tokens: seq<Text>, n: nat): seq<Text> { if |tokens| <= n then tokens else tokens[..n] }

  /** The arguments of a command line. */
  function Arguments(line: Text): seq<Text> { AllUnquoted(First(Tokens(Stripped(line)), MAXARG)) }

  /** No argument is too long for the scratch buffer used while unquoting. */
  predicate FitScratch(line: Text) { forall i :: 0 <= i < |Arguments(line)| ==> |Arguments(line)[i]| < SCRATCH }

  // ---------------------------------------------------------------------------------------------
  // Quoting is undone

  /** An argument as it is typed: bare, with q 0, or between quotes q. */
  function Written(a: Text, q: nat): Text { if q == 0 then a else [q] + a + [q] }

  /** Bare, an argument is not empty and has neither spaces nor quotes; between quotes it has no such quote. */
  predicate Writable(a: Text, q: nat) {
    0 !in a && if q == 0 then a != [] && a[0] != TABULATOR && BareText(a) else (q == DOUBLE || q == SINGLE) && q !in a
  }

  predicate BareText(a: Text) { SPACE !in a && DOUBLE !in a && SINGLE !in a }

  predicate AllWritable(args: seq<Text>, quotes: seq<nat>) {
    |args| == |quotes| && forall i :: 0 <= i < |args| ==> Writable(args[i], quotes[i])
  }

  /** The arguments as they are typed, with a space between each and the next. */
  function Joined(args: seq<Text>, quotes: seq<nat>): Text
    requires |args| == |quotes|
    decreases |args|
  {
    if args == [] then []
    else if |args| == 1 then Written(args[0], quotes[0])
    else Written(args[0], quotes[0]) + [SPACE] + Joined(args[1..], quotes[1..])
  }

  lemma QuotedHead(a: Text, q: nat, rest: Text)
    requires a != []
    ensures (a + [q] + rest)[0] == a[0] && (a + [q] + rest)[1..] == a[1..] + [q] + rest
  {
  }

  lemma ClosingHead(q: nat, rest: Text)
    ensures var s := [] + [q] + rest; s != [] && s[0] == q && s[1..] == rest
  {
  }

  /** From inside a quoted text the token goes on to the closing quote, and beyond. */
  lemma {:induction false} InsideToken(a: Text, q: nat, rest: Text)
    requires q !in a && q != 0
    ensures TokenLength(a + [q] + rest, q) == |a| + 1 + TokenLength(rest, 0)
    decreases |a|
  {
    if a == [] {
      ClosingHead(q, rest);
    } else {
      QuotedHead(a, q, rest);
      assert a[0] in a;
      InsideToken(a[1..], q, rest);
    }
  }

  lemma {:induction false} InsideUnquoted(a: Text, q: nat, rest: Text)
    requires q !in a && q != 0
    ensures Unquoted(a + [q] + rest, q) == a + Unquoted(rest, 0)
    decreases |a|
  {
    if a == [] {
      ClosingHead(q, rest);
    } else {
      QuotedHead(a, q, rest);
      assert a[0] in a;
      InsideUnquoted(a[1..], q, rest);
      assert [a[0]] + (a[1..] + Unquoted(rest, 0)) == a + Unquoted(rest, 0);
    }
  }

  /** A quoted text before a space or the end is one token, and unquoting gives it back. */
  lemma QuotedToken(a: Text, q: nat, rest: Text)
    requires q !in a && IsQuote(q) && (rest == [] || rest[0] == SPACE)
    ensures TokenLength(Written(a, q) + rest, 0) == |a| + 2 && Unquoted(Written(a, q), 0) == a
  {
    QuotedLength(a, q, rest);
    QuotedBack(a, q);
  }

  lemma QuotedLength(a: Text, q: nat, rest: Text)
    requires q !in a && IsQuote(q) && (rest == [] || rest[0] == SPACE)
    ensures TokenLength(Written(a, q) + rest, 0) == |a| + 2
  {
    var s := Written(a, q) + rest;
    assert s[0] == q && s[1..] == a + [q] + rest;
    InsideToken(a, q, rest);
  }

  lemma QuotedBack(a: Text, q: nat)
    requires q !in a && IsQuote(q)
    ensures Unquoted(Written(a, q), 0) == a
  {
    var s := Written(a, q);
    assert s[0] == q && s[1..] == a + [q] + [];
    InsideUnquoted(a, q, []);
  }

  /** A bare word before a space or the end is one token, and has nothing to unquote. */
  lemma {:induction false} BareToken(a: Text, rest: Text)
    requires BareText(a) && (rest == [] || rest[0] == SPACE)
    ensures TokenLength(a + rest, 0) == |a| && Unquoted(a, 0) == a
    decreases |a|
  {
    if a == [] {
      assert a + rest == rest;
    } else {
      assert (a + rest)[0] == a[0] && (a + rest)[1..] == a[1..] + rest;
      BareToken(a[1..], rest);
    }
  }

  lemma WrittenToken(a: Text, q: nat, rest: Text)
    requires Writable(a, q) && (rest == [] || rest[0] == SPACE)
    ensures TokenLength(Written(a, q) + rest, 0) == |Written(a, q)| && Unquoted(Written(a, q), 0) == a
  {
    if q == 0 { BareToken(a, rest); } else { QuotedToken(a, q, rest); }
  }

  lemma {:induction false} JoinedTokens(args: seq<Text>, quotes: seq<nat>)
    requires AllWritable(args, quotes)
    ensures var t := Tokens(Joined(args, quotes));
      |t| == |args| && forall i :: 0 <= i < |args| ==> t[i] == Written(args[i], quotes[i])
    decreases |args|
  {
    if args != [] {
      JoinedHead(args, quotes);
      JoinedTokens(args[1..], quotes[1..]);
    }
  }

  lemma JoinedHead(args: seq<Text>, quotes: seq<nat>)
    requires AllWritable(args, quotes) && args != []
    ensures Tokens(Joined(args, quotes)) == [Written(args[0], quotes[0])] + Tokens(Joined(args[1..], quotes[1..]))
  {
    var w, more := Written(args[0], quotes[0]), Joined(args[1..], quotes[1..]);
    if |args| == 1 {
      FirstTyped(args[0], quotes[0], []);
      assert w + [] == w && args[1..] == [];
    } else {
      FirstTyped(args[0], quotes[0], [SPACE] + more);
      assert w + ([SPACE] + more) == w + [SPACE] + more;
      assert ([SPACE] + more)[1..] == more;
    }
  }

  /** The first argument of a line, and what follows it. */
  lemma FirstTyped(a: Text, q: nat, rest: Text)
    requires Writable(a, q) && (rest == [] || rest[0] == SPACE)
    ensures Tokens(Written(a, q) + rest) == [Written(a, q)] + Tokens(if rest == [] then [] else rest[1..])
  {
    var w := Written(a, q);
    WrittenToken(a, q, rest);
    assert (w + rest)[..|w|] == w;
    assert rest != [] ==> (w + rest)[|w| + 1..] == rest[1..];
  }

  lemma JoinedStart(args: seq<Text>, quotes: seq<nat>)
    requires AllWritable(args, quotes)
    ensures Stripped(Joined(args, quotes)) == Joined(args, quotes)
  {
    if args != [] {
      assert Joined(args, quotes)[0] == Written(args[0], quotes[0])[0];
    }
  }

  lemma UnquotedBack(t: seq<Text>, args: seq<Text>, quotes: seq<nat>)
    requires AllWritable(args, quotes)
    requires |t| == |args| && forall i :: 0 <= i < |args| ==> t[i] == Written(args[i], quotes[i])
    ensures AllUnquoted(t) == args
  {
    forall i | 0 <= i < |args| ensures AllUnquoted(t)[i] == args[i] { WrittenToken(args[i], quotes[i], []); }
  }

  /** Up to MAXARG arguments, each bare or between quotes of either kind, joined by spaces, come back. */
  lemma QuotingRoundTrip(args: seq<Text>, quotes: seq<nat>)
    requires |args| <= MAXARG && AllWritable(args, quotes)
    ensures Arguments(Joined(args, quotes)) == args
  {
    JoinedTokens(args, quotes);
    JoinedStart(args, quotes);
    UnquotedBack(Tokens(Joined(args, quotes)), args, quotes);
  }

  /** Two spaces in a row make an empty argument. */
  lemma EmptyArgument(s: Text)
    ensures Tokens([SPACE] + s) == [[]] + Tokens(s)
  {
    assert AfterToken([SPACE] + s) == s;
  }

  // ---------------------------------------------------------------------------------------------
  // In place

  /** The text s, ended by a NUL, is at p. */
  predicate HasText(b: seq<nat>, p: nat, s: Text) {
    p + |s| < |b| && b[p..p + |s|] == s && b[p + |s|] == 0 && NoNul(s)
  }

  lemma TextAt(b: seq<nat>, p: nat, s: Text, k: nat)
    requires HasText(b, p, s) && k <= |s|
    ensures b[p + k] == if k < |s| then s[k] else 0
    ensures HasText(b, p + k, s[k..])
  {
    if k < |s| { assert b[p..p + |s|][k] == s[k]; }
    assert b[p + k..p + |s|] == b[p..p + |s|][k..];
  }

  /** Changing bytes outside a text and its NUL leaves it there. */
  lemma TextKept(b: seq<nat>, b': seq<nat>, p: nat, s: Text)
    requires HasText(b, p, s) && |b'| == |b| && forall i :: p <= i <= p + |s| ==> b'[i] == b[i]
    ensures HasText(b', p, s)
  {
    assert b'[p..p + |s|] == b[p..p + |s|];
  }

  datatype Option<T> = None | Some(value: T)

  class Splitter {
    const buf: array<nat>
    /** The place where the next token starts, kept between calls. */
    var token: nat

    constructor (buf: array<nat>)
      ensures this.buf == buf
    {
      this.buf := buf;
      token := 0;
    }

    /** To the space or NUL behind the token. */
    method ScanToken(ghost rest: Text)
      requires HasText(buf[..], token, rest)
      modifies this`token
      ensures token == old(token) + TokenLength(rest, 0)
      ensures TokenLength(rest, 0) < |rest| <==> buf[token] != 0
      ensures HasText(buf[..], old(token), rest) && (buf[token] != 0 ==> rest[TokenLength(rest, 0)] == SPACE)
    {
      ghost var start, b := token, buf[..];
      var open := 0;
      while buf[token] != 0 && !(open == 0 && buf[token] == SPACE)
        invariant Scanning(b, start, rest, token, open)
        decreases start + |rest| - token
      {
        var c := buf[token];
        ScanNext(b, start, rest, token, open);
        if open != 0 {
          if c == open {
            open := 0;
          }
        } else if IsQuote(c) {
          open := c;
        }
        token := token + 1;
      }
      ScanStops(b, start, rest, token, open);
    }

    /** A space behind the token becomes a NUL. */
    method EndToken(ghost start: nat, ghost rest: Text, ghost n: nat)
      requires n <= |rest| && HasText(buf[..], start, rest) && token == start + n && (n < |rest| <==> buf[token] != 0)
      modifies this`token, buf
      ensures IsCut(old(buf[..]), start, rest, n, buf[..], token)
    {
      if buf[token] != 0 {
        CutInside(buf[..], start, rest, n);
        ghost var before := buf[..];
        buf[token] := 0;
        assert buf[..] == before[token := 0];
        token := token + 1;
      } else {
        CutAtEnd(buf[..], start, rest);
      }
    }

    method CutToken(ghost rest: Text)
      requires HasText(buf[..], token, rest)
      modifies this`token, buf
      ensures IsCut(old(buf[..]), old(token), rest, TokenLength(rest, 0), buf[..], token)
    {
      ghost var start := token;
      ScanToken(rest);
      EndToken(start, rest, TokenLength(rest, 0));
    }

    /** strmbtok: the next token, ended in place; the rest stays where it is. */
    method NextToken(input: Option<nat>, ghost rest: Text) returns (lead: Option<nat>)
      requires HasText(buf[..], if input.Some? then input.value else token, rest)
      modifies this`token, buf
      ensures var start := if input.Some? then input.value else old(token);
        if input.None? && rest == [] then lead == None && token == old(token) && buf[..] == old(buf[..])
        else lead == Some(start) && IsCut(old(buf[..]), start, rest, TokenLength(rest, 0), buf[..], token)
    {
      if input.Some? {
        token := input.value;
      }
      lead := Some(token);
      TextAt(buf[..], token, rest, 0);
      if input.None? && buf[token] == 0 {
        return None;
      }
      CutToken(rest);
    }

    /** One character: it opens or closes a quoted part, or it is copied. */
    method StripOne(p: nat, ghost s: Text, at: nat, open: nat, scratch: array<nat>, out: nat)
        returns (open': nat, out': nat)
      requires scratch != buf && out < scratch.Length == SCRATCH
      requires Unquoting(buf[..], p, s, at, open, scratch[..out]) && buf[at] != 0
      modifies scratch
      ensures at < p + |s| && out' < SCRATCH && Unquoting(buf[..], p, s, at + 1, open', scratch[..out'])
    {
      var c := buf[at];
      ghost var copied := scratch[..out];
      UnquoteNext(buf[..], p, s, at, open, copied);
      open', out' := open, out;
      if open != 0 && c == open {
        open' := 0;
      } else if open == 0 && IsQuote(c) {
        open' := c;
      } else {
        scratch[out] := c;
        out' := out + 1;
        assert scratch[..out'] == copied + [c];
      }
    }

    /** The text at p without its quotes, in a scratch buffer. */
    method StripQuotes(p: nat, ghost s: Text) returns (scratch: array<nat>, out: nat)
      requires HasText(buf[..], p, s) && |Unquoted(s, 0)| < SCRATCH
      ensures fresh(scratch) && out < scratch.Length == SCRATCH && scratch[..out] == Unquoted(s, 0)
        && NoNul(scratch[..out]) && out <= |s|
    {
      scratch := new nat[SCRATCH](_ => 0);
      var at := p;
      var open := 0;
      out := 0;
      ghost var before := buf[..];
      while buf[at] != 0
        invariant out < SCRATCH && buf[..] == before && Unquoting(before, p, s, at, open, scratch[..out])
        decreases p + |s| - at
      {
        open, out := StripOne(p, s, at, open, scratch, out);
        at := at + 1;
      }
      UnquoteEnd(before, p, s, at, open, scratch[..out]);
    }

    /** strcpy of the scratch buffer over the text it came from. */
    method CopyBack(p: nat, scratch: array<nat>, out: nat, ghost s: Text)
      requires HasText(buf[..], p, s) && scratch != buf && out < scratch.Length && out <= |s| && NoNul(scratch[..out])
      modifies buf
      ensures HasText(buf[..], p, scratch[..out]) && OnlyInside(old(buf[..]), buf[..], p, |s|)
    {
      var j := 0;
      while j < out
        invariant j <= out && buf[p..p + j] == scratch[..j]
        invariant forall i :: 0 <= i < buf.Length && !(p <= i < p + j) ==> buf[i] == old(buf[i])
      {
        buf[p + j] := scratch[j];
        j := j + 1;
      }
      buf[p + out] := 0;
      assert buf[p..p + out] == scratch[..out];
      assert buf[..][p..p + out] == buf[p..p + out];
    }

    /** unquote with out == in, through a scratch buffer that the text without its quotes must fit. */
    method Unquote(p: nat, ghost s: Text)
      requires HasText(buf[..], p, s) && |Unquoted(s, 0)| < SCRATCH
      modifies buf
      ensures HasText(buf[..], p, Unquoted(s, 0)) && OnlyInside(old(buf[..]), buf[..], p, |s|)
    {
      var scratch, out := StripQuotes(p, s);
      CopyBack(p, scratch, out, s);
    }

    /** Past the spaces and tabs at the start. */
    method SkipBlanks(at: nat, ghost line: Text) returns (start: nat)
      requires HasText(buf[..], at, line)
      ensures HasText(buf[..], start, Stripped(line))
    {
      start := at;
      ghost var rest := line;
      TextAt(buf[..], start, rest, 0);
      while buf[start] == SPACE || buf[start] == TABULATOR
        invariant HasText(buf[..], start, rest) && Stripped(rest) == Stripped(line)
        decreases |rest|
      {
        TextAt(buf[..], start, rest, 0);
        TextAt(buf[..], start, rest, 1);
        rest := rest[1..];
        start := start + 1;
      }
      TextAt(buf[..], start, rest, 0);
    }

    /** One argument unquoted where it is, and the next one cut. */
    method TakeArgument(lead: nat, ghost argv: seq<Option<nat>>, ghost texts: seq<Text>, ghost now: Text,
        ghost rest: Text)
      returns (next: Option<nat>)
      requires Ready(buf[..], argv, texts, Some(lead), now, token, rest) && |Unquoted(now, 0)| < SCRATCH
      modifies this`token, buf
      ensures Ready(buf[..], argv + [Some(lead)], texts + [Unquoted(now, 0)], next, NextOf(rest), token,
        AfterToken(rest))
      ensures next == None <==> rest == []
    {
      ghost var before := buf[..];
      Unquote(lead, now);
      ghost var argv', texts' := argv + [Some(lead)], texts + [Unquoted(now, 0)];
      ReadyUnquoted(before, argv, texts, Some(lead), now, token, rest, buf[..], argv', texts');
      ghost var middle, at' := buf[..], token;
      next := NextToken(None, rest);
      ReadyNext(middle, argv', texts', rest, at', next, token, buf[..]);
    }

    method FirstArgument(start: nat, ghost rest: Text) returns (lead: Option<nat>)
      requires HasText(buf[..], start, rest) && rest != []
      modifies this`token, buf
      ensures lead == Some(start) && Ready(buf[..], [], [], lead, NextOf(rest), token, AfterToken(rest))
    {
      lead := NextToken(Some(start), rest);
    }

    /** One argument taken: the next state of the splitting. */
    method Step(lead: nat, ghost done: seq<Option<nat>>, ghost now: Text, ghost rest: Text, ghost line: Text)
      returns (next: Option<nat>)
      requires Splitting(buf[..], line, done, Some(lead), now, token, rest) && |done| < MAXARG && FitScratch(line)
      modifies this`token, buf
      ensures Splitting(buf[..], line, done + [Some(lead)], next, NextOf(rest), token, AfterToken(rest))
    {
      ghost var tokens, n := Tokens(Stripped(line)), |done|;
      ghost var texts := AllUnquoted(tokens[..n]);
      TokenTaken(tokens, texts, n, now, rest);
      ArgumentFits(line, tokens, n, now);
      next := TakeArgument(lead, done, texts, now, rest);
    }

    /** The arguments of a line that starts with one. */
    method ParseArguments(start: nat, ghost line: Text) returns (n: nat, argv: seq<Option<nat>>)
      requires HasText(buf[..], start, Stripped(line)) && Stripped(line) != [] && FitScratch(line)
      modifies this`token, buf
      ensures n <= |argv| && Placed(buf[..], argv[..n], Arguments(line))
    {
      ghost var rest := Stripped(line);
      var lead := FirstArgument(start, rest);
      FirstSplitting(buf[..], line, start, token);
      ghost var now := NextOf(rest);
      rest := AfterToken(rest);
      n, argv := 0, [lead];
      ghost var done: seq<Option<nat>> := [];
      while lead.Some? && n < MAXARG
        invariant argv == done + [lead] && |done| == n && n <= MAXARG
        invariant Splitting(buf[..], line, done, lead, now, token, rest)
        decreases MAXARG - n
      {
        ghost var before := lead;
        lead := Step(lead.value, done, now, rest, line);
        done := done + [before];
        now, rest := NextOf(rest), AfterToken(rest);
        n := n + 1;
        argv := argv + [lead];
      }
      SplittingDone(buf[..], line, done, lead, now, token, rest);
      assert argv[..n] == done;
    }

    /**
     * parsecmdline: the arguments of the line, at most MAXARG, each ended and without its quotes where it
     * was. Unquoting one never disturbs another, before it or after it.
     */
    method Parse(at: nat, ghost line: Text) returns (n: nat, argv: seq<Option<nat>>)
      requires HasText(buf[..], at, line) && FitScratch(line)
      modifies this`token, buf
      ensures n <= |argv| && Placed(buf[..], argv[..n], Arguments(line))
    {
      var start := SkipBlanks(at, line);
      TextAt(buf[..], start, Stripped(line), 0);
      if buf[start] == 0 {
        assert Tokens([]) == [];
        return 0, [];
      }
      n, argv := ParseArguments(start, line);
    }

    /** A line of arguments typed bare or between quotes comes apart in place into those arguments. */
    method ParseQuoted(at: nat, ghost args: seq<Text>, ghost quotes: seq<nat>) returns (n: nat, argv: seq<Option<nat>>)
      requires |args| <= MAXARG && AllWritable(args, quotes) && forall i :: 0 <= i < |args| ==> |args[i]| < SCRATCH
      requires HasText(buf[..], at, Joined(args, quotes))
      modifies this`token, buf
      ensures n == |args| <= |argv| && Placed(buf[..], argv[..n], args)
    {
      QuotingRoundTrip(args, quotes);
      n, argv := Parse(at, Joined(args, quotes));
    }
  }

  /** The texts are at these places. */
  predicate Placed(b: seq<nat>, argv: seq<Option<nat>>, texts: seq<Text>) {
    |argv| == |texts| && forall i :: 0 <= i < |argv| ==> argv[i].Some? && HasText(b, argv[i].value, texts[i])
  }

  /** The first n tokens are done; the n-th, if there is one, is the current one, and the others are in the rest. */
  predicate Progress(tokens: seq<Text>, texts: seq<Text>, n: nat, more: bool, now: Text, rest: Text) {
    n <= |tokens| && texts == AllUnquoted(tokens[..n]) && tokens[n..] == if more then [now] + Tokens(rest) else []
  }

  /** Between two arguments: those done are in place, without their quotes, and the rest is still to come. */
  predicate Splitting(b: seq<nat>, line: Text, done: seq<Option<nat>>, lead: Option<nat>, now: Text, token: nat,
      rest: Text) {
    var tokens := Tokens(Stripped(line));
    && |done| <= |tokens| && Ready(b, done, AllUnquoted(tokens[..|done|]), lead, now, token, rest)
    && Progress(tokens, AllUnquoted(tokens[..|done|]), |done|, lead.Some?, now, rest)
  }

  lemma FirstSplitting(b: seq<nat>, line: Text, start: nat, token: nat)
    requires Stripped(line) != []
    requires Ready(b, [], [], Some(start), NextOf(Stripped(line)), token, AfterToken(Stripped(line)))
    ensures Splitting(b, line, [], Some(start), NextOf(Stripped(line)), token, AfterToken(Stripped(line)))
  {
    var tokens := Tokens(Stripped(line));
    assert tokens[..0] == [] && AllUnquoted(tokens[..0]) == [];
    assert tokens[0..] == tokens;
  }

  lemma SplittingDone(b: seq<nat>, line: Text, done: seq<Option<nat>>, lead: Option<nat>, now: Text, token: nat,
      rest: Text)
    requires Splitting(b, line, done, lead, now, token, rest) && |done| <= MAXARG && (lead.Some? ==> |done| == MAXARG)
    ensures Placed(b, done, Arguments(line))
  {
    var tokens := Tokens(Stripped(line));
    TokensDone(tokens, AllUnquoted(tokens[..|done|]), |done|, lead.Some?, now, rest);
  }

  lemma TokenTaken(tokens: seq<Text>, texts: seq<Text>, n: nat, now: Text, rest: Text)
    requires Progress(tokens, texts, n, true, now, rest)
    ensures n < |tokens| && tokens[n] == now
    ensures Progress(tokens, texts + [Unquoted(now, 0)], n + 1, rest != [], NextOf(rest), AfterToken(rest))
  {
    assert tokens[n..][0] == tokens[n];
    UnquotedOneMore(tokens, n);
    assert tokens[n + 1..] == tokens[n..][1..] == Tokens(rest);
  }

  lemma UnquotedOneMore(tokens: seq<Text>, n: nat)
    requires n < |tokens|
    ensures AllUnquoted(tokens[..n + 1]) == AllUnquoted(tokens[..n]) + [Unquoted(tokens[n], 0)]
  {
    assert tokens[..n + 1] == tokens[..n] + [tokens[n]];
  }

  lemma TokensDone(tokens: seq<Text>, texts: seq<Text>, n: nat, more: bool, now: Text, rest: Text)
    requires Progress(tokens, texts, n, more, now, rest) && n <= MAXARG && (more ==> n == MAXARG)
    ensures texts == AllUnquoted(First(tokens, MAXARG))
  {
    assert !more ==> tokens[..n] == tokens;
    assert |tokens[n..]| == |tokens| - n;
  }

  function NextOf(rest: Text): Text { rest[..TokenLength(rest, 0)] }

  /** Finished arguments are in place below the limit. */
  predicate Finished(b: seq<nat>, argv: seq<Option<nat>>, texts: seq<Text>, limit: nat) {
    && |argv| == |texts|
    && forall i :: 0 <= i < |argv| ==>
        argv[i].Some? && HasText(b, argv[i].value, texts[i]) && argv[i].value + |texts[i]| < limit
  }

  /** Finished arguments below the current one, the current one still quoted, and the rest behind it. */
  predicate Ready(b: seq<nat>, argv: seq<Option<nat>>, texts: seq<Text>, lead: Option<nat>, now: Text, token: nat,
      rest: Text) {
    if lead.Some? then
      && Finished(b, argv, texts, lead.value) && HasText(b, lead.value, now) && HasText(b, token, rest)
      && lead.value + |now| <= token && (rest != [] ==> lead.value + |now| < token)
    else Placed(b, argv, texts)
  }

  lemma ArgumentFits(line: Text, tokens: seq<Text>, n: nat, now: Text)
    requires tokens == Tokens(Stripped(line)) && n < MAXARG && n < |tokens| && tokens[n] == now && FitScratch(line)
    ensures |Unquoted(now, 0)| < SCRATCH
  {
    assert First(tokens, MAXARG)[n] == now;
    assert |Arguments(line)[n]| < SCRATCH;
  }

  /** Unquoting the current argument finishes it. */
  lemma ReadyUnquoted(before: seq<nat>, argv: seq<Option<nat>>, texts: seq<Text>, lead: Option<nat>, now: Text,
      token: nat, rest: Text, after: seq<nat>, argv': seq<Option<nat>>, texts': seq<Text>)
    requires lead.Some? && Ready(before, argv, texts, lead, now, token, rest)
    requires HasText(after, lead.value, Unquoted(now, 0)) && OnlyInside(before, after, lead.value, |now|)
    requires argv' == argv + [lead] && texts' == texts + [Unquoted(now, 0)]
    ensures Finished(after, argv', texts', if rest == [] then token + 1 else token) && HasText(after, token, rest)
  {
    TextKept(before, after, token, rest);
    forall i | 0 <= i < |argv| ensures HasText(after, argv[i].value, texts[i]) {
      TextKept(before, after, argv[i].value, texts[i]);
    }
  }

  lemma FinishedKept(before: seq<nat>, after: seq<nat>, argv: seq<Option<nat>>, texts: seq<Text>, limit: nat)
    requires Finished(before, argv, texts, limit) && |after| == |before|
    requires forall i :: 0 <= i < limit && i < |before| ==> after[i] == before[i]
    ensures Finished(after, argv, texts, limit)
  {
    forall i | 0 <= i < |argv| ensures HasText(after, argv[i].value, texts[i]) {
      TextKept(before, after, argv[i].value, texts[i]);
    }
  }

  /** The next token is cut behind everything finished. */
  lemma ReadyNext(before: seq<nat>, argv: seq<Option<nat>>, texts: seq<Text>, rest: Text, at: nat, lead: Option<nat>,
      token: nat, after: seq<nat>)
    requires Finished(before, argv, texts, if rest == [] then at + 1 else at) && HasText(before, at, rest)
    requires if rest == [] then lead == None && after == before
      else lead == Some(at) && IsCut(before, at, rest, TokenLength(rest, 0), after, token)
    ensures Ready(after, argv, texts, lead, NextOf(rest), token, AfterToken(rest))
  {
    if rest != [] {
      FinishedKept(before, after, argv, texts, at);
    }
  }

  /** Nothing but the n bytes at p is different. */
  predicate OnlyInside(before: seq<nat>, after: seq<nat>, p: nat, n: nat) {
    |after| == |before| && forall i :: 0 <= i < |before| && !(p <= i < p + n) ==> after[i] == before[i]
  }

  /** The copy without quotes is at `at`, with this quote open, and has this much. */
  predicate Unquoting(b: seq<nat>, p: nat, s: Text, at: nat, open: nat, copied: Text) {
    && HasText(b, p, s) && p <= at <= p + |s| && |copied| <= at - p && NoNul(copied)
    && Unquoted(s, 0) == copied + Unquoted(s[at - p..], open) && |Unquoted(s, 0)| < SCRATCH
  }

  /** A character that is copied, or one that opens or closes a quoted part. */
  predicate Copied(open: nat, c: nat) { if open != 0 then c != open else !IsQuote(c) }

  lemma UnquoteNext(b: seq<nat>, p: nat, s: Text, at: nat, open: nat, copied: Text)
    requires Unquoting(b, p, s, at, open, copied) && b[at] != 0
    ensures var c := b[at];
      && at < p + |s| && (Copied(open, c) ==> |copied| + 1 < SCRATCH)
      && Unquoting(b, p, s, at + 1, if Copied(open, c) then open else NextQuote(open, c),
                   if Copied(open, c) then copied + [c] else copied)
  {
    TextAt(b, p, s, at - p);
    var rest := s[at - p..];
    assert rest[0] == b[at] && rest[1..] == s[at + 1 - p..];
    assert copied + ([b[at]] + Unquoted(rest[1..], open)) == (copied + [b[at]]) + Unquoted(rest[1..], open);
  }

  lemma UnquoteEnd(b: seq<nat>, p: nat, s: Text, at: nat, open: nat, copied: Text)
    requires Unquoting(b, p, s, at, open, copied) && b[at] == 0
    ensures copied == Unquoted(s, 0) && |copied| <= |s| && NoNul(copied)
  {
    TextAt(b, p, s, at - p);
    assert s[at - p..] == [] && copied + [] == copied;
  }

  predicate OnlyChanged(before: seq<nat>, after: seq<nat>, at: nat) {
    |after| == |before| && forall i :: 0 <= i < |before| && i != at ==> after[i] == before[i]
  }

  /** What open quote follows on a character. */
  function NextQuote(open: nat, c: nat): nat {
    if open != 0 then if c == open then 0 else open else if IsQuote(c) then c else 0
  }

  /** The scan is at `at`, within the first token, with this quote open. */
  predicate Scanning(b: seq<nat>, start: nat, rest: Text, at: nat, open: nat) {
    && HasText(b, start, rest) && start <= at <= start + |rest|
    && TokenLength(rest, 0) == at - start + TokenLength(rest[at - start..], open)
  }

  lemma TokenStep(s: Text, open: nat)
    requires s != [] && !(open == 0 && s[0] == SPACE)
    ensures TokenLength(s, open) == 1 + TokenLength(s[1..], NextQuote(open, s[0]))
  {
  }

  lemma ScanNext(b: seq<nat>, start: nat, rest: Text, at: nat, open: nat)
    requires Scanning(b, start, rest, at, open) && b[at] != 0 && !(open == 0 && b[at] == SPACE)
    ensures Scanning(b, start, rest, at + 1, NextQuote(open, b[at]))
  {
    var k := at - start;
    TextAt(b, start, rest, k);
    assert rest[k..][0] == rest[k] && rest[k..][1..] == rest[k + 1..];
    TokenStep(rest[k..], open);
  }

  lemma ScanStops(b: seq<nat>, start: nat, rest: Text, at: nat, open: nat)
    requires Scanning(b, start, rest, at, open) && (b[at] == 0 || (open == 0 && b[at] == SPACE))
    ensures TokenLength(rest, 0) == at - start && (at - start < |rest| <==> b[at] != 0)
    ensures b[at] != 0 ==> rest[at - start] == SPACE
  {
    TextAt(b, start, rest, at - start);
    if at - start < |rest| { assert rest[at - start..][0] == rest[at - start]; }
  }

  /** After cutting n characters at start: they are ended there, and the rest is at `token`. */
  predicate IsCut(before: seq<nat>, start: nat, rest: Text, n: nat, after: seq<nat>, token: nat)
    requires n <= |rest|
  {
    && HasText(after, start, rest[..n]) && HasText(after, token, Behind(rest, n))
    && token == (if n < |rest| then start + n + 1 else start + n) && OnlyChanged(before, after, start + n)
  }

  lemma CutInside(b: seq<nat>, start: nat, rest: Text, n: nat)
    requires HasText(b, start, rest) && n < |rest|
    ensures IsCut(b, start, rest, n, b[start + n := 0], start + n + 1)
  {
    Cut(b, start, rest, n);
  }

  lemma CutAtEnd(b: seq<nat>, start: nat, rest: Text)
    requires HasText(b, start, rest)
    ensures IsCut(b, start, rest, |rest|, b, start + |rest|)
  {
    assert rest[..|rest|] == rest;
  }

  /** A NUL at the k-th character leaves the text before it, and the text behind it. */
  lemma Cut(b: seq<nat>, p: nat, s: Text, k: nat)
    requires HasText(b, p, s) && k < |s|
    ensures var b' := b[p + k := 0]; HasText(b', p, s[..k]) && HasText(b', p + k + 1, s[k + 1..])
  {
    var b' := b[p + k := 0];
    assert b[p..p + |s|][..k] == s[..k];
    assert b'[p..p + k] == b[p..p + k] == s[..k];
    TextAt(b, p, s, k + 1);
    TextKept(b, b', p + k + 1, s[k + 1..]);
  }
}
