/** Properties of the `/convert` and free-text handlers, stated on the message
    text. Every message is `Join(Split(text, ' '), ' ')` (see `PyStr.Split`), so
    stating a property for every space-free token list `parts` and the message
    `Join(parts, ' ')` covers every message, doubled spaces (empty tokens)
    included. */
module HandlersProperties {
  import opened Wrappers
  import opened PyStr
  import opened Handlers

  /** No token contains the separator, as is true of every result of `split(' ')`. */
  predicate SpaceFree(parts: seq<string>) {
    forall i :: 0 <= i < |parts| ==> ' ' !in parts[i]
  }

  /** The message made of `parts` is handled as the token list `parts`. */
  lemma ConvertOnTokens<R>(b: Builtins<R>, parts: seq<string>, fetch: string -> Fetched<R>)
    requires |parts| >= 1 && SpaceFree(parts)
    ensures ConvertCommand(b, Join(parts, ' '), fetch) == ConvertArgs(b, parts, fetch)
  {
    SplitJoin(parts, ' ');
  }

  /** A string that does not end in whitespace is its own `rstrip()`. */
  lemma NoSpaceAtEnd(s: string)
    requires |s| > 0 && !IsSpace(s[|s| - 1])
    ensures TrimEnd(s, IsSpace) == s
  {
  }

  /** Five or more tokens with a valid amount reach the fetch. */
  lemma ReachesFetch<R>(b: Builtins<R>, args: seq<string>, fetch: string -> Fetched<R>)
    requires |args| >= 5
    requires ParseFloat(b.numeral, args[1]).Some?
    ensures var base := b.upper(TrimEnd(args[2], IsSpace));
      ConvertArgs(b, args, fetch)
      == Handled(Respond(b, ParseFloat(b.numeral, args[1]).value, base, b.upper(args[4]), fetch(base)), [base])
  {
  }

  // ---------------------------------------------------------------- error precedence

  /** A message without a space has no amount token: format error, no fetch. */
  lemma BareCommandIsFormatError<R>(b: Builtins<R>, text: string, fetch: string -> Fetched<R>)
    requires ' ' !in text
    ensures ConvertCommand(b, text, fetch) == Handled(FormatError, [])
  {
  }

  /** An amount `float()` rejects wins over every missing token: the amount
      error, with no fetch, even when fewer than five tokens are present. */
  lemma NonNumericAmountComesFirst<R>(b: Builtins<R>, parts: seq<string>, fetch: string -> Fetched<R>)
    requires |parts| >= 2 && SpaceFree(parts)
    requires ParseFloat(b.numeral, parts[1]).None?
    ensures ConvertCommand(b, Join(parts, ' '), fetch) == Handled(AmountError, [])
  {
    ConvertOnTokens(b, parts, fetch);
  }

  /** A doubled space after the command makes token 1 empty, which `float()`
      rejects: the amount error, whatever follows. */
  lemma DoubledSpaceIsAmountError<R>(b: Builtins<R>, cmd: string, rest: string, fetch: string -> Fetched<R>)
    requires ' ' !in cmd
    ensures ConvertCommand(b, cmd + "  " + rest, fetch) == Handled(AmountError, [])
  {
    var empty: string := [];
    assert cmd + "  " + rest == cmd + [' '] + (empty + [' '] + rest);
    SplitAtFirstSeparator(cmd, ' ', empty + [' '] + rest);
    SplitAtFirstSeparator(empty, ' ', rest);
    assert Split(cmd + "  " + rest, ' ')[1] == empty;
  }

  /** A valid amount with fewer than five tokens: format error, no fetch, since
      `args[4]` is read before the rates are requested. */
  lemma ShortCommandIsFormatError<R>(b: Builtins<R>, parts: seq<string>, fetch: string -> Fetched<R>)
    requires 2 <= |parts| < 5 && SpaceFree(parts)
    requires ParseFloat(b.numeral, parts[1]).Some?
    ensures ConvertCommand(b, Join(parts, ' '), fetch) == Handled(FormatError, [])
  {
    ConvertOnTokens(b, parts, fetch);
  }

  /** Token 0 (the command), token 3 (the connector word) and every token after
      token 4 have no effect on the reply or on the fetch. */
  lemma OnlyAmountSourceTargetMatter<R>(b: Builtins<R>, parts: seq<string>, parts': seq<string>, fetch: string -> Fetched<R>)
    requires |parts| >= 5 && SpaceFree(parts)
    requires |parts'| >= 5 && SpaceFree(parts')
    requires parts[1] == parts'[1] && parts[2] == parts'[2] && parts[4] == parts'[4]
    ensures ConvertCommand(b, Join(parts, ' '), fetch) == ConvertCommand(b, Join(parts', ' '), fetch)
  {
    ConvertOnTokens(b, parts, fetch);
    ConvertOnTokens(b, parts', fetch);
  }

  // ---------------------------------------------------------------- the fetch and its outcome

  /** With a valid amount and five tokens, rates are requested exactly once,
      for the right-stripped, upper-cased token 2. */
  lemma FetchesStrippedSourceOnce<R>(b: Builtins<R>, parts: seq<string>, fetch: string -> Fetched<R>)
    requires |parts| >= 5 && SpaceFree(parts)
    requires ParseFloat(b.numeral, parts[1]).Some?
    ensures ConvertCommand(b, Join(parts, ' '), fetch).fetched == [b.upper(TrimEnd(parts[2], IsSpace))]
  {
    ConvertOnTokens(b, parts, fetch);
  }

  /** When the fetch yields no table the reply is "rates unavailable", for any target token. */
  lemma NoRatesIsUnavailable<R>(b: Builtins<R>, parts: seq<string>, fetch: string -> Fetched<R>)
    requires |parts| >= 5 && SpaceFree(parts)
    requires ParseFloat(b.numeral, parts[1]).Some?
    requires fetch(b.upper(TrimEnd(parts[2], IsSpace))) == NoRates
    ensures ConvertCommand(b, Join(parts, ' '), fetch).reply == RatesUnavailable
  {
    ConvertOnTokens(b, parts, fetch);
  }

  /** With a table, the upper-cased token 4, not stripped, decides: absent gives
      "invalid currency", present gives the conversion, carrying the amount, the
      source code, the rounded product with `table[target]` and the target code. */
  lemma TargetKeyDecides<R>(b: Builtins<R>, parts: seq<string>, fetch: string -> Fetched<R>, table: map<string, R>)
    requires |parts| >= 5 && SpaceFree(parts)
    requires ParseFloat(b.numeral, parts[1]).Some?
    requires fetch(b.upper(TrimEnd(parts[2], IsSpace))) == Rates(table)
    ensures var target := b.upper(parts[4]);
      ConvertCommand(b, Join(parts, ' '), fetch).reply.InvalidCurrency? <==> target !in table
    ensures var amount := ParseFloat(b.numeral, parts[1]).value;
      var source := b.upper(TrimEnd(parts[2], IsSpace));
      var target := b.upper(parts[4]);
      target in table ==>
        ConvertCommand(b, Join(parts, ' '), fetch).reply
        == Converted(amount, source, b.round4(b.mul(amount, table[target])), target)
  {
    ConvertOnTokens(b, parts, fetch);
  }

  /** End to end: with a table, the user is sent the success line
      `"{amount} {FROM} = {converted} {TO}"` when the target is a key, and the
      "invalid currency" text when it is not. */
  lemma RatesReplyText<R>(b: Builtins<R>, parts: seq<string>, fetch: string -> Fetched<R>, table: map<string, R>)
    requires |parts| >= 5 && SpaceFree(parts)
    requires ParseFloat(b.numeral, parts[1]).Some?
    requires fetch(b.upper(TrimEnd(parts[2], IsSpace))) == Rates(table)
    ensures var amount := ParseFloat(b.numeral, parts[1]).value;
      var source := b.upper(TrimEnd(parts[2], IsSpace));
      var target := b.upper(parts[4]);
      ConvertReplyText(b, ConvertCommand(b, Join(parts, ' '), fetch).reply)
      == if target in table then Some(SuccessLine(b, amount, source, b.round4(b.mul(amount, table[target])), target))
         else Some(InvalidCurrencyText)
  {
    TargetKeyDecides(b, parts, fetch, table);
    var amount := ParseFloat(b.numeral, parts[1]).value;
    var source := b.upper(TrimEnd(parts[2], IsSpace));
    var target := b.upper(parts[4]);
    var reply := ConvertCommand(b, Join(parts, ' '), fetch).reply;
    ReplyTextOfRates(b, reply, amount, source, target, table);
  }

  /** The text sent for the two outcomes that follow a table. */
  lemma ReplyTextOfRates<R>(b: Builtins<R>, reply: ConvertReply<R>, amount: R, source: string, target: string, table: map<string, R>)
    requires target in table ==> reply == Converted(amount, source, b.round4(b.mul(amount, table[target])), target)
    requires target !in table ==> reply == InvalidCurrency
    ensures ConvertReplyText(b, reply)
      == if target in table then Some(SuccessLine(b, amount, source, b.round4(b.mul(amount, table[target])), target))
         else Some(InvalidCurrencyText)
  {
  }

  /** An exception out of the fetch lands in the arm that catches its kind:
      a `ValueError` reads as the amount error, an `IndexError` as the format
      error, anything else leaves the handler without a reply. */
  lemma FetchExceptionArms<R>(b: Builtins<R>, parts: seq<string>, fetch: string -> Fetched<R>, kind: ExceptionKind)
    requires |parts| >= 5 && SpaceFree(parts)
    requires ParseFloat(b.numeral, parts[1]).Some?
    requires fetch(b.upper(TrimEnd(parts[2], IsSpace))) == Raised(kind)
    ensures ConvertCommand(b, Join(parts, ' '), fetch).reply
      == match kind
         case ValueErrorKind => AmountError
         case IndexErrorKind => FormatError
         case OtherKind => Aborted
  {
    ConvertOnTokens(b, parts, fetch);
  }

  // ---------------------------------------------------------------- the two documented formats

  /** The tokens of a command in the help example's word order. */
  lemma ExampleFormatTokens(cmd: string, amount: string, source: string, target: string)
    requires ' ' !in cmd && ' ' !in amount && ' ' !in source && ' ' !in target
    ensures Split(cmd + " " + amount + " " + source + " to " + target, ' ') == [cmd, amount, source, "to", target]
  {
    var parts := [cmd, amount, source, "to", target];
    JoinFive(parts);
    assert Join(parts, ' ') == cmd + " " + amount + " " + source + " to " + target;
    SplitJoin(parts, ' ');
  }

  /** A command in the word order of the help text's example
      ("/convert 100 USD to EUR") asks rates for the source code and looks up
      the target code. */
  lemma ExampleFormatIsUnderstood<R>(b: Builtins<R>, cmd: string, amount: string, source: string, target: string, fetch: string -> Fetched<R>)
    requires ' ' !in cmd && ' ' !in amount && ' ' !in source && ' ' !in target
    requires ParseFloat(b.numeral, amount).Some?
    ensures var base := b.upper(TrimEnd(source, IsSpace));
      ConvertCommand(b, cmd + " " + amount + " " + source + " to " + target, fetch)
      == Handled(Respond(b, ParseFloat(b.numeral, amount).value, base, b.upper(target), fetch(base)), [base])
  {
    ExampleFormatTokens(cmd, amount, source, target);
    ReachesFetch(b, [cmd, amount, source, "to", target], fetch);
  }

  /** The tokens of a command in the format hint's word order. */
  lemma HintWordOrderTokens(cmd: string, amount: string, source: string, target: string)
    requires ' ' !in cmd && ' ' !in amount && ' ' !in source && ' ' !in target
    ensures Split(cmd + " " + amount + " из " + source + " to " + target, ' ') == [cmd, amount, "из", source, "to", target]
  {
    var parts := [cmd, amount, "из", source, "to", target];
    JoinCons(cmd, parts[1..], ' ');
    assert parts[1..] == [amount, "из", source, "to", target];
    JoinFive(parts[1..]);
    assert Join(parts, ' ') == cmd + " " + amount + " из " + source + " to " + target;
    SplitJoin(parts, ' ');
  }

  /** The format hint names the source after the word "из" ("from"). A command
      typed in that word order is misread: "из" becomes the source code and the
      connector word "to" the target code. */
  lemma HintWordOrderIsMisread<R>(b: Builtins<R>, cmd: string, amount: string, source: string, target: string, fetch: string -> Fetched<R>)
    requires ' ' !in cmd && ' ' !in amount && ' ' !in source && ' ' !in target
    requires ParseFloat(b.numeral, amount).Some?
    ensures var wrongBase := b.upper("из");
      ConvertCommand(b, cmd + " " + amount + " из " + source + " to " + target, fetch)
      == Handled(Respond(b, ParseFloat(b.numeral, amount).value, wrongBase, b.upper("to"), fetch(wrongBase)), [wrongBase])
  {
    HintWordOrderTokens(cmd, amount, source, target);
    NoSpaceAtEnd("из");
    ReachesFetch(b, [cmd, amount, "из", source, "to", target], fetch);
  }

  /** The success line is itself five space-separated tokens with "=" in the
      middle, when the printed numbers and the codes contain no space. */
  lemma SuccessLineTokens<R>(b: Builtins<R>, amount: R, source: string, converted: R, target: string)
    requires ' ' !in b.show(amount) && ' ' !in source && ' ' !in b.show(converted) && ' ' !in target
    ensures Split(SuccessLine(b, amount, source, converted, target), ' ')
      == [b.show(amount), source, "=", b.show(converted), target]
  {
    SplitJoin([b.show(amount), source, "=", b.show(converted), target], ' ');
  }

  // ---------------------------------------------------------------- other text

  /** The greeting is sent exactly when "привет" occurs in the lower-cased text,
      whether or not "пока" occurs too. */
  lemma HelloIffGreetingOccurs<R>(b: Builtins<R>, text: string, name: string)
    ensures HandleText(b, text, name) == Hello(name) <==> exists i :: OccursAt(b.lower(text), Greeting, i)
  {
    ContainsIff(b.lower(text), Greeting);
  }

  /** The farewell is sent exactly when "пока" occurs and "привет" does not. */
  lemma ByeIffOnlyFarewellOccurs<R>(b: Builtins<R>, text: string, name: string)
    ensures HandleText(b, text, name) == Bye(name)
      <==> (!exists i :: OccursAt(b.lower(text), Greeting, i)) && exists j :: OccursAt(b.lower(text), Farewell, j)
  {
    ContainsIff(b.lower(text), Greeting);
    ContainsIff(b.lower(text), Farewell);
  }

  /** The unknown-command reply is sent exactly when neither word occurs. */
  lemma UnknownIffNeitherOccurs<R>(b: Builtins<R>, text: string, name: string)
    ensures HandleText(b, text, name) == Unknown
      <==> (!exists i :: OccursAt(b.lower(text), Greeting, i)) && !exists j :: OccursAt(b.lower(text), Farewell, j)
  {
    ContainsIff(b.lower(text), Greeting);
    ContainsIff(b.lower(text), Farewell);
  }

  /** "привет" anywhere in the lower-cased text gives the greeting. */
  lemma GreetingAnywhere<R>(b: Builtins<R>, text: string, name: string, pre: string, post: string)
    requires b.lower(text) == pre + Greeting + post
    ensures HandleText(b, text, name) == Hello(name)
  {
    ContainsInfix(pre, Greeting, post);
  }

  // ---------------------------------------------------------------- the fixed texts

  /** `/help` lists `/start`, `/help` and the `/convert` usage line, and shows
      the example command: each occurs somewhere in the text, so Python's `in`
      finds it (`ContainsIff`). */
  lemma HelpListsCommands()
    ensures exists i :: OccursAt(HelpText, "/start", i)
    ensures exists i :: OccursAt(HelpText, "/help", i)
    ensures exists i :: OccursAt(HelpText, ConvertUsage, i)
    ensures exists i :: OccursAt(HelpText, HelpExample, i)
  {
    var h := "Доступные команды:\n";
    var s1 := " - Начать общение с ботом\n";
    var s2 := " - Получить справку о доступных командах\n";
    var s3 := "- Конвертировать сумму из одной валюты в другую\n" + "Например: ";
    assert h + "/start" + s1 + "/help" + s2 + ConvertUsage + s3 + HelpExample == HelpText;
    HelpPieces(h, "/start", s1, "/help", s2, ConvertUsage, s3, HelpExample);
  }

  /** Every piece of a text assembled like the `/help` text occurs in it. */
  lemma HelpPieces(h: string, c1: string, s1: string, c2: string, s2: string, c3: string, s3: string, c4: string)
    ensures var t := h + c1 + s1 + c2 + s2 + c3 + s3 + c4;
      OccursAt(t, c1, |h|) && OccursAt(t, c2, |h + c1 + s1|)
      && OccursAt(t, c3, |h + c1 + s1 + c2 + s2|) && OccursAt(t, c4, |h + c1 + s1 + c2 + s2 + c3 + s3|)
  {
    var t := h + c1 + s1 + c2 + s2 + c3 + s3 + c4;
    assert t[|h|..|h| + |c1|] == c1;
    assert t[|h + c1 + s1|..|h + c1 + s1| + |c2|] == c2;
    assert t[|h + c1 + s1 + c2 + s2|..|h + c1 + s1 + c2 + s2| + |c3|] == c3;
    assert t[|h + c1 + s1 + c2 + s2 + c3 + s3|..] == c4;
  }

  /** The four fixed error replies are pairwise different texts, so a user can
      tell the outcomes apart. */
  lemma FixedRepliesDistinct<R>(b: Builtins<R>, r1: ConvertReply<R>, r2: ConvertReply<R>)
    requires r1.FormatError? || r1.AmountError? || r1.RatesUnavailable? || r1.InvalidCurrency?
    requires r2.FormatError? || r2.AmountError? || r2.RatesUnavailable? || r2.InvalidCurrency?
    ensures ConvertReplyText(b, r1) == ConvertReplyText(b, r2) <==> r1 == r2
  {
  }
}
