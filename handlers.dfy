/** The chat handlers of the currency bot: `/start`, `/help`, `/convert` and the
    free-text fallback. Everything the handlers take from Python or from other
    libraries without its code being part of the model (the float-literal
    grammar, case mapping, float arithmetic and printing, HTML bolding) is a
    field of `Builtins`; the rate lookup is the `fetch` oracle. A handler's
    awaited `answer`/`reply` is its returned value. */
module Handlers {
  import opened Wrappers
  import opened PyStr

  /** The Python operations the handlers call whose behaviour is not modelled.
      `R` stands for Python's `float`. */
  datatype Builtins<!R> = Builtins(
    numeral: string -> Option<R>,  // float() on a stripped, non-empty string
    upper: string -> string,       // str.upper
    lower: string -> string,       // str.lower
    mul: (R, R) -> R,              // float *
    round4: R -> R,                // round(x, 4)
    show: R -> string,             // str(x), as an f-string renders a float
    bold: string -> string)        // aiogram's hbold

  // ---------------------------------------------------------------- /start, /help

  /** The `/start` greeting: it names the sender in bold and points to `/help`. */
  function StartReply<R>(b: Builtins<R>, fullName: string): (r: string)
    ensures Contains(r, b.bold(fullName))
    ensures Contains(r, "/help")
  {
    var pre := "Привет, ";
    var mid := "! Я бот для конвертации валют. Введите команду ";
    var post := ", чтобы узнать доступные команды!";
    ContainsInfix(pre, b.bold(fullName), mid + "/help" + post);
    ContainsInfix(pre + b.bold(fullName) + mid, "/help", post);
    assert pre + b.bold(fullName) + (mid + "/help" + post) == pre + b.bold(fullName) + mid + "/help" + post;
    pre + b.bold(fullName) + mid + "/help" + post
  }

  /** The usage line shown by `/help` and by the format error. */
  const ConvertUsage: string := "/convert <b>сумма</b> из <b>валюты</b> to <b>в валюту</b>"

  /** The example command shown by `/help`. */
  const HelpExample: string := "/convert 100 USD to EUR"

  /** The `/help` text, verbatim (including the missing space before the dash). */
  const HelpText: string :=
    "Доступные команды:\n"
    + "/start" + " - Начать общение с ботом\n"
    + "/help" + " - Получить справку о доступных командах\n"
    + ConvertUsage + "- Конвертировать сумму из одной валюты в другую\n"
    + "Например: " + HelpExample

  // ---------------------------------------------------------------- /convert

  /** Which `except` arm of `convert_command`, if any, catches an exception. */
  datatype ExceptionKind =
    | ValueErrorKind   // ValueError or a subclass
    | IndexErrorKind   // IndexError or a subclass
    | OtherKind        // anything else: escapes the handler

  /** What awaiting `get_exchange_rates(base)` gives: the `rates` table of a 200
      response, `None` for any other status, or an exception raised on the way. */
  datatype Fetched<R> =
    | Rates(table: map<string, R>)
    | NoRates
    | Raised(kind: ExceptionKind)

  /** The reply `convert_command` sends. `Aborted` is an exception that no
      `except` arm catches: the handler sends nothing. */
  datatype ConvertReply<R> =
    | FormatError
    | AmountError
    | RatesUnavailable
    | InvalidCurrency
    | Converted(amount: R, source: string, converted: R, target: string)
    | Aborted

  /** A reply together with the base currencies the handler asked rates for, in order. */
  datatype Handled<R> = Handled(reply: ConvertReply<R>, fetched: seq<string>)

  /** What follows the fetch: the `None` check, the membership test, the
      conversion; an exception out of the fetch goes to the matching arm. */
  function Respond<R>(b: Builtins<R>, amount: R, source: string, target: string, rates: Fetched<R>): (r: ConvertReply<R>)
    ensures r.InvalidCurrency? <==> rates.Rates? && target !in rates.table
    ensures r.Converted? <==> rates.Rates? && target in rates.table
    ensures r.Converted? ==> r == Converted(amount, source, b.round4(b.mul(amount, rates.table[target])), target)
  {
    match rates
    case Raised(ValueErrorKind) => AmountError
    case Raised(IndexErrorKind) => FormatError
    case Raised(OtherKind) => Aborted
    case NoRates => RatesUnavailable
    case Rates(table) =>
      if target !in table then InvalidCurrency
      else Converted(amount, source, b.round4(b.mul(amount, table[target])), target)
  }

  /** `convert_command` on the tokens `message.text.split(' ')`. The steps run in
      the source's order: `float(args[1])`, then `args[2]`, then `args[4]`, then
      the fetch; an `IndexError` from a missing token gives the format error and a
      `ValueError` from `float()` the amount error. */
  function ConvertArgs<R>(b: Builtins<R>, args: seq<string>, fetch: string -> Fetched<R>): (h: Handled<R>)
    ensures |h.fetched| <= 1
    ensures h.fetched != [] <==> |args| >= 5 && ParseFloat(b.numeral, args[1]).Some?
    ensures h.fetched != [] ==> h.fetched == [b.upper(TrimEnd(args[2], IsSpace))]
  {
    if |args| < 2 then Handled(FormatError, [])
    else match ParseFloat(b.numeral, args[1])
      case None => Handled(AmountError, [])
      case Some(amount) =>
        if |args| < 5 then Handled(FormatError, [])
        else
          var source := b.upper(TrimEnd(args[2], IsSpace));
          var target := b.upper(args[4]);
          Handled(Respond(b, amount, source, target, fetch(source)), [source])
  }

  /** `convert_command` on the text of a message: at most one fetch, made
      exactly when the message has five space-separated tokens and a valid amount. */
  function ConvertCommand<R>(b: Builtins<R>, text: string, fetch: string -> Fetched<R>): (h: Handled<R>)
    ensures |h.fetched| <= 1
    ensures var args := Split(text, ' ');
      h.fetched != [] <==> |args| >= 5 && ParseFloat(b.numeral, args[1]).Some?
  {
    ConvertArgs(b, Split(text, ' '), fetch)
  }

  const FormatErrorLead: string := "Неверный формат команды. Пожалуйста, используйте команду в формате "
  const FormatErrorText: string := FormatErrorLead + ConvertUsage
  const AmountErrorText: string := "Неверно указана сумма для конвертации."
  const RatesUnavailableText: string := "Не удалось получить курсы обмена валют. Пожалуйста, попробуйте позже."
  const InvalidCurrencyText: string := "Неверно указана валюта для конвертации."

  /** The success line `f"{amount} {from_currency} = {converted_amount} {to_currency}"`:
      the printed amount, the source code, "=", the printed result and the
      target code, separated by single spaces. */
  function SuccessLine<R>(b: Builtins<R>, amount: R, source: string, converted: R, target: string): (r: string)
    ensures r == Join([b.show(amount), source, "=", b.show(converted), target], ' ')
  {
    JoinFive([b.show(amount), source, "=", b.show(converted), target]);
    b.show(amount) + " " + source + " = " + b.show(converted) + " " + target
  }

  /** The text the handler sends for a reply; none when the handler aborts. */
  function ConvertReplyText<R>(b: Builtins<R>, reply: ConvertReply<R>): (t: Option<string>)
    ensures t.None? <==> reply.Aborted?
    ensures reply.FormatError? ==> exists i :: OccursAt(t.value, ConvertUsage, i)
  {
    assert OccursAt(FormatErrorText, ConvertUsage, |FormatErrorLead|);
    match reply
    case FormatError => Some(FormatErrorText)
    case AmountError => Some(AmountErrorText)
    case RatesUnavailable => Some(RatesUnavailableText)
    case InvalidCurrency => Some(InvalidCurrencyText)
    case Converted(a, s, c, t) => Some(SuccessLine(b, a, s, c, t))
    case Aborted => None
  }

  // ---------------------------------------------------------------- other text

  const Greeting: string := "привет"
  const Farewell: string := "пока"

  /** The reply of `handle_text`. */
  datatype TextReply = Hello(name: string) | Bye(name: string) | Unknown

  /** `handle_text`: the greeting word is looked for first, then the farewell
      word, in the lower-cased text. */
  function HandleText<R>(b: Builtins<R>, text: string, fullName: string): (r: TextReply)
    ensures r == Unknown || r.name == fullName
  {
    var t := b.lower(text);
    if Contains(t, Greeting) then Hello(fullName)
    else if Contains(t, Farewell) then Bye(fullName)
    else Unknown
  }

  /** The text `handle_text` answers with. */
  function TextReplyText<R>(b: Builtins<R>, reply: TextReply): (r: string)
    ensures reply.Hello? ==> "Привет, " <= r && Contains(r, b.bold(reply.name))
    ensures reply.Bye? ==> "Пока, " <= r && Contains(r, b.bold(reply.name))
    ensures reply.Unknown? ==> Contains(r, "/help")
  {
    match reply
    case Hello(name) =>
      ContainsInfix("Привет, ", b.bold(name), "!");
      "Привет, " + b.bold(name) + "!"
    case Bye(name) =>
      ContainsInfix("Пока, ", b.bold(name), "!");
      "Пока, " + b.bold(name) + "!"
    case Unknown =>
      ContainsInfix("Неизвестная команда. Введите ", "/help", ", чтобы узнать доступные команды.");
      "Неизвестная команда. Введите " + "/help" + ", чтобы узнать доступные команды."
  }
}
