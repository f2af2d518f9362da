# Currency bot handlers, modelled in Dafny

This project models the decision logic of the Telegram currency-conversion
bot's chat handlers in `handlers.py`:

- `convert_command` reads `/convert <amount> <FROM> to <TO>`. It splits the
  text on single spaces, reads the amount with `float()`, takes the source
  and target codes, asks the rate fetcher for a table keyed on the source
  code, and replies with exactly one of: a format error, an amount error,
  "rates unavailable", "invalid currency", or the line
  `"{amount} {FROM} = {converted} {TO}"`.
- `handle_text` is the fallback for any other text. It looks for a greeting
  word, then a farewell word, in the lower-cased text.
- `/start` and `/help` answer with fixed texts.

Each handler is modelled as a pure function of the message text (and, for the
greetings, the sender's full name). It returns the reply it would send. Only
messages that carry text are modelled; see "Left out".

Files:

- `wrappers.dfy`: `Option`.
- `pystr.dfy` (module `PyStr`): the Python string operations the handlers
  use:
  - the character set of `str.isspace` (`IsSpace`), which `rstrip()` removes;
  - the smaller set `float()` ignores around a literal (`FloatSpace`).
    CPython strips only the C `isspace` characters there, so the four ASCII
    separators U+001C..U+001F, which `str.isspace` accepts, stay in the
    literal and make `float()` fail;
  - trimming either end, or both, of a string by a character set
    (`TrimEnd`, `TrimStart`, `Trim`); `rstrip()` is `TrimEnd` by `IsSpace`;
  - `split(' ')`. The space-join `Join` is not used by the handlers; it
    states what `Split` computes;
  - substring `in` (`Contains`);
  - the whitespace handling of `float()`: `FloatSpace` characters around the
    literal are ignored, and a token made only of them (or the empty token)
    raises `ValueError`.
- `handlers.dfy` (module `Handlers`): the handlers, their reply datatypes and
  their fixed texts.
- `handlers_properties.dfy` (module `HandlersProperties`): what the handlers
  promise, stated on the message text.

What the model treats as parameters:

- Python operations whose code is not in this model are fields of
  `Builtins<R>`, where `R` stands for Python's `float`:
  - the float-literal grammar (`numeral`);
  - `str.upper` and `str.lower`;
  - float `*`;
  - `round(x, 4)`;
  - `str(float)` as the f-string prints it;
  - aiogram's `hbold`.
- The rate lookup `get_exchange_rates` (currency.py:9-24) is the oracle
  `fetch: string -> Fetched<R>`. It stands for one of three things:
  - the `rates` table of a 200 response (`Rates`). Its values are assumed to be
    numbers (`map<string, R>`);
  - `None` for any other status (`NoRates`);
  - an exception raised while fetching (`Raised`). It is classified by
    which `except` arm of `convert_command` catches it: `ValueErrorKind`,
    `IndexErrorKind`, or `OtherKind`, which no arm catches. The handler then
    sends nothing (`Aborted`).
- `Handled.fetched` lists the base codes for which rates were requested. That
  is how "no fetch happens" is stated.

Some consequences the lemmas make explicit:

- The amount is read before tokens 2 and 4. So a bad amount wins over a
  short message, and a doubled space after the command (an empty token 1)
  is always an amount error.
- A `ValueError` raised while fetching is caught by the amount arm. Python's
  `json.JSONDecodeError` is one. So a garbled 200 response is reported as a
  wrong amount.
- The format hint "/convert сумма из валюты to в валюту" puts the word "из"
  ("from") before the source code. A command typed in that word order is
  read with "из" as the source code and "to" as the target code. The help
  example "/convert 100 USD to EUR" is read as intended.

Three behaviours of the code worth stating:

- The amount is any value `float()` accepts. It is not restricted to
  positive numbers.
- Tokens are separated by single spaces only. They are not separated by
  runs of whitespace.
- A non-numeric amount gives the amount error even when fewer than five
  tokens are present. Only a message with no amount token at all (fewer
  than two tokens) gives the format error before the amount is read.

Repeating a command with the same rate table gives the same reply. That
holds by construction, because every handler is a function of its inputs.

## Model

| member | source | states |
|---|---|---|
| PyStr.IsSpaceOnAscii | handlers.py:61 | on ASCII, the `str.isspace` set that `rstrip()` removes is exactly tab, LF, VT, FF, CR, the separators U+001C..U+001F and space |
| PyStr.FloatSpaceOnAscii | handlers.py:60 | on ASCII, `float()` ignores exactly tab, LF, VT, FF, CR and space; above ASCII it ignores exactly the `str.isspace` characters |
| PyStr.TrimEnd | handlers.py:61 | `rstrip()` (trimming the end by a set) returns a prefix of its argument that is empty or ends outside the set, and everything it drops is in the set |
| PyStr.TrimEndUnique | handlers.py:61 | those three facts determine the result of `rstrip()` uniquely |
| PyStr.TrimStart | handlers.py:60 | trimming the start returns a suffix that is empty or starts outside the set, and everything dropped is in the set |
| PyStr.TrimStartUnique | handlers.py:60 | those facts determine the leading half of `float()`'s trimming uniquely |
| PyStr.Trim | handlers.py:60 | trimming both ends returns the stretch of the string between a leading and a trailing run of set characters; nothing is left exactly when every character is in the set, otherwise the result starts and ends outside it |
| PyStr.TrimIgnoresSurrounding | handlers.py:60 | characters of the set added before or after a string do not change what trimming keeps |
| PyStr.Split | handlers.py:59 | `split(' ')` gives at least one token, no token contains a space, and joining the tokens with single spaces gives back the text |
| PyStr.SplitWithoutSeparator | handlers.py:59 | a text without a space splits into the one-token list of itself |
| PyStr.SplitAtFirstSeparator | handlers.py:59 | splitting `a + " " + b`, with no space in `a`, gives `a` followed by the tokens of `b` |
| PyStr.SplitJoin | handlers.py:59 | splitting the space-join of space-free tokens gives back exactly those tokens, empty tokens included |
| PyStr.ParseFloat | handlers.py:60 | `float()` of a token made only of `float()` whitespace, the empty token included, fails with ValueError; any other token is read by the literal grammar after that whitespace is trimmed from both ends |
| PyStr.ParseFloatIgnoresSurroundingSpace | handlers.py:60 | `float()` whitespace (tabs, newlines, spaces and the non-ASCII spaces) around the amount token does not change the parsed amount |
| PyStr.ParseFloatKeepsSeparators | handlers.py:60 | for every token starting with one of U+001C..U+001F: that character is whitespace for `str.isspace`, yet `float()` does not trim it, so the literal grammar receives the token with only its end trimmed |
| PyStr.Contains | handlers.py:92-94 | a substring test that succeeds only when the word is no longer than the text |
| PyStr.ContainsIff | handlers.py:92-94 | the substring test succeeds exactly when the word occurs at some index, in both directions |
| PyStr.ContainsInfix | handlers.py:92 | a word placed anywhere in a text is found |
| Handlers.Respond | handlers.py:64-80 | after the fetch, "invalid currency" exactly when a table came back without the target key; the conversion exactly when the key is present, carrying amount, source, `round4(amount * table[target])` and target in that order |
| Handlers.ConvertArgs | handlers.py:59-80 | at most one fetch, requested exactly when there are at least five tokens and the amount parses, and for the right-stripped, upper-cased token 2 |
| Handlers.ConvertCommand | handlers.py:56-80 | on the message text: at most one fetch, requested exactly when `split(' ')` gives at least five tokens and token 1 parses as an amount |
| Handlers.SuccessLine | handlers.py:74 | the success line is the printed amount, source, "=", printed result and target joined by single spaces |
| Handlers.ConvertReplyText | handlers.py:64-80 | every outcome except an uncaught exception sends a reply text; the format error shows the `/convert` usage line |
| HandlersProperties.RatesReplyText | handlers.py:64-75 | end to end: with a table and five space-free tokens, the user is sent the success line of amount, `upper(rstrip(token 2))`, the rounded product and `upper(token 4)` when that key is present, and the "invalid currency" text when it is not |
| Handlers.StartReply | handlers.py:28-29 | the `/start` reply contains the sender's full name in bold and points to `/help` |
| Handlers.HandleText | handlers.py:90-97 | a greeting or farewell addresses the sender by full name |
| Handlers.TextReplyText | handlers.py:92-97 | the greeting starts "Привет, " and the farewell "Пока, ", each containing the bold full name; the unknown-command reply points to `/help` |
| HandlersProperties.ConvertOnTokens | handlers.py:59 | the message made of space-free tokens is handled as exactly that token list |
| HandlersProperties.BareCommandIsFormatError | handlers.py:59-60 | a message without a space gets the format error and no fetch |
| HandlersProperties.NonNumericAmountComesFirst | handlers.py:60-62 | with at least two tokens, an amount `float()` rejects gets the amount error and no fetch, also with fewer than five tokens |
| HandlersProperties.DoubledSpaceIsAmountError | handlers.py:59-60 | a doubled space after the command makes token 1 empty, giving the amount error and no fetch whatever follows |
| HandlersProperties.ShortCommandIsFormatError | handlers.py:60-64 | a valid amount with two to four tokens gets the format error and no fetch |
| HandlersProperties.OnlyAmountSourceTargetMatter | handlers.py:59-62 | tokens 0 and 3 and every token after 4 affect neither the reply nor the fetch |
| HandlersProperties.FetchesStrippedSourceOnce | handlers.py:61-64 | with a valid amount and five tokens, rates are requested once, for `upper(rstrip(token 2))` |
| HandlersProperties.NoRatesIsUnavailable | handlers.py:64-67 | a `None` from the fetch gives "rates unavailable" whatever the target token |
| HandlersProperties.TargetKeyDecides | handlers.py:62-75 | with a table, "invalid currency" exactly when `upper(token 4)`, not stripped, is not a key; when it is a key, the conversion with amount, source, rounded product and target |
| HandlersProperties.FetchExceptionArms | handlers.py:56-80 | a ValueError out of the fetch gives the amount error, an IndexError the format error, any other exception no reply |
| HandlersProperties.ExampleFormatTokens | handlers.py:59 | a command in the help example's word order splits into command, amount, source, "to", target |
| HandlersProperties.ExampleFormatIsUnderstood | handlers.py:45-64 | a command in the help example's word order fetches for the source code and looks up the target code |
| HandlersProperties.HintWordOrderTokens | handlers.py:59 | a command in the format hint's word order splits into six tokens, with "из" at position 2 |
| HandlersProperties.HintWordOrderIsMisread | handlers.py:43-64 | a command in the hint's word order fetches for `upper("из")` and looks up `upper("to")` |
| HandlersProperties.SuccessLineTokens | handlers.py:74 | the success line splits into printed amount, source, "=", printed result and target, when none of them contains a space |
| HandlersProperties.HelloIffGreetingOccurs | handlers.py:90-93 | the greeting is sent exactly when "привет" occurs in the lower-cased text, whether or not "пока" does |
| HandlersProperties.ByeIffOnlyFarewellOccurs | handlers.py:90-95 | the farewell is sent exactly when "пока" occurs and "привет" does not |
| HandlersProperties.UnknownIffNeitherOccurs | handlers.py:90-97 | the unknown-command reply is sent exactly when neither word occurs |
| HandlersProperties.GreetingAnywhere | handlers.py:92-93 | "привет" anywhere in the lower-cased text gives the greeting |
| HandlersProperties.HelpListsCommands | handlers.py:40-45 | the `/help` text contains `/start`, `/help`, the `/convert` usage line and the example command |
| HandlersProperties.FixedRepliesDistinct | handlers.py:66-80 | the four fixed error replies are equal exactly when they are the same outcome |

## Left out

- currency.py `get_exchange_rates` is network I/O. It appears only as the `fetch` oracle: the HTTP GET, the status test, JSON decoding and the `rates` lookup are not modelled.
- The aiogram dispatcher is not modelled. Each handler is modelled on the messages the dispatcher would route to it. Left out with it:
  - the `CommandStart`/`Command` filters and their registration order;
  - `main` and `start_polling`;
  - the bot token.
- `message.answer` versus `message.reply` is not modelled. Both are the returned reply text; quoting the original message is transport behaviour.
- Logging calls are not modelled. They do not affect replies.
- Async scheduling and the blocking `requests.get` inside a coroutine are concurrency concerns and are not modelled.
- PyStr.ParseFloat: does not model the float-literal grammar itself, because its code is not part of this model. It is the `numeral` parameter. Only the whitespace trimming and the empty-string error are concrete.
- Float multiplication, `round(x, 4)` and the printing of floats are parameters (`mul`, `round4`, `show`). Their IEEE 754 semantics are not modelled.
- `str.upper`, `str.lower` and `hbold`'s HTML escaping are parameters. Unicode case mapping is not modelled.
- Handlers.ConvertArgs: every exception raised by the fetch that no `except` arm catches is the one outcome `Aborted`, for example a network error or a missing `rates` key. Which exception it is, and what happens after it leaves the handler, is not modelled.
- Non-numeric values in the rate table are not modelled: the table is `map<string, R>`, so the `TypeError` that handlers.py:73 would raise on a string rate cannot occur in the model.
- Messages without text are not modelled. For a sticker, a photo, or a `/convert` sent as a media caption, `message.text` is `None`, so handlers.py:59 and handlers.py:90 raise `AttributeError` and the user gets no reply.
- `/start` and `/help` are modelled only as their fixed texts (`StartReply`, `HelpText`) and what they contain.
