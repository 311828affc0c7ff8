# fairy-json front end, modelled in Dafny

fairy-json is a recursive-descent JSON parser written in C++. At this stage it
accepts only the literal `null`, following the `ws` and `null` productions of
RFC 8259 (sections 2 and 3). It also has two digit classifiers and a helper
that moves characters from a `std::stack<char>` into a NUL-terminated buffer.
This project models that code and proves what it promises.

- `utils.dfy`, module `Utils`: the classifiers `isDigitFrom1To9` and `isDigit`
  as predicates. `std::stack<char>` becomes the class `CharStack`, whose
  sequence field holds the elements bottom first. `fetchStrFromCharStack` is a
  method with a `while` loop that fills a fresh `array<char>` back to front
  and pops the caller's stack in place.
- `fairy_json.dfy`, module `FairyJson`: the enums `JsonFieldType` and
  `JsonParseStatus` as datatypes. `FairyValue` is a class with one mutable
  field, `valueType`, because `type` is a Dafny keyword. `ParseContext` is a
  class holding the input text and the cursor `json`, an index into it.
  The input is a `seq<char>` whose logical end is its first `'\0'` (`End`).
  Every character the parser reads, in `ParseWhitespace`, `ParseNull` and
  `ParseValue`, goes through `ParseContext.Peek`, and `Peek` may only read up
  to that NUL. Verifying the whitespace loop and the short-circuit `||` of
  `ParseNull` therefore proves that the parser never reads past the
  terminator. Each method is proved against a specification function:
  `SkipWs` for whitespace, `ValueStatus` for the dispatcher and `ParseResult`
  for `json_parse`. Lemmas then describe `ParseResult` through an independent
  definition, `TrimStart`.

`json_parse` does not check for trailing content. `PARSE_ROOT_NOT_SINGULAR`
is declared at fairyjson/fairy_json.h:31 but no code returns it, and
`"null x"` parses with status OK. The model follows the code here
(`NullThenAnything`, `NullWithTrailingContent`, and the last ensures of
`JsonParse`). `json_parse` `assert`s
that its output pointer is non-null (fairyjson/fairy_json.cpp:63); the model
takes that as the non-null class type of its `v` parameter.

## Model

| member | source | states |
|---|---|---|
| `Utils.IsDigitFrom1To9` | fairyjson/utils.h:14-16 | true exactly for the characters of "123456789" |
| `Utils.IsDigit` | fairyjson/utils.h:23-25 | true exactly for the characters of "0123456789" |
| `Utils.DigitFrom1To9IsDigit` | fairyjson/utils.h:14-25 | a digit 1-9 is a digit, and '0' is the only digit that is not a digit 1-9 |
| `Utils.CharStack.Top` | fairyjson/utils.cpp:14 | `top()` on a non-empty stack returns the most recently pushed element |
| `Utils.CharStack.Pop` | fairyjson/utils.cpp:15 | `pop()` removes the top element and leaves the elements below it unchanged |
| `Utils.FetchStrFromCharStack` | fairyjson/utils.cpp:9-18 | the stack must hold at least `len` elements; the result is a fresh buffer of length `len + 1` with `buf[len] == '\0'`; `buf[..len]` is the old top `len` elements in push order, so `buf[len-1]` is the old top; the stack loses exactly those `len` elements; with `len == 0` the stack is unchanged and the buffer holds only the terminator; the loop invariant ties popped elements to filled slots |
| `FairyJson.FairyValue.constructor` | fairyjson/test.cpp:26-28 | a value starts with the kind it is initialised with |
| `FairyJson.FairyValue.GetType` | fairyjson/fairy_json.cpp:69-72 | returns exactly the stored kind and modifies nothing |
| `FairyJson.End` | fairyjson/fairy_json.cpp:56 | the logical end of a C string is its first NUL: it is in range, it holds `'\0'`, and no earlier index does |
| `FairyJson.SkipWs` | fairyjson/fairy_json.cpp:23-28 | the index reached never goes backwards; every skipped character is space, tab, LF or CR; the stopping character is not; starting at or before the NUL, it stops at or before the NUL |
| `FairyJson.SkipWsIsTrimStart` | fairyjson/fairy_json.cpp:23-28 | skipping by index and the independent `TrimStart` (removing leading whitespace) give the same remaining text |
| `FairyJson.SkipWsStopsAt` | fairyjson/fairy_json.cpp:25-26 | the skip stops at the first non-whitespace character and nowhere else (a corollary of the contract of `SkipWs`) |
| `FairyJson.IsWs` | fairyjson/fairy_json.cpp:20-25 | true exactly for the characters of " \t\n\r", the `ws` production; the NUL is never whitespace, so it stops the loop |
| `FairyJson.ParseContext.Peek` | fairyjson/fairy_json.cpp:39 | reads `json[k]` only at or before the first NUL, and the character read is `'\0'` exactly when it is that NUL |
| `FairyJson.NullAt` | fairyjson/fairy_json.cpp:38-39 | the characters from index `i` are exactly "null"; this is the 'n' that EXPECT checks plus the "ull" test |
| `FairyJson.ValueStatus` | fairyjson/fairy_json.cpp:52-59 | the dispatcher's result at index `i` is OK exactly when "null" starts there, expect value exactly when `i` is the first NUL, and never root-not-singular |
| `FairyJson.ParseResult` | fairyjson/fairy_json.cpp:61-67 | json_parse's result is OK exactly when "null" starts at the first non-whitespace index, expect value exactly when that index is the first NUL, and never root-not-singular |
| `FairyJson.ParseContext.constructor` | fairyjson/fairy_json.cpp:62 | a new context holds the input text, and its cursor is at index 0 |
| `FairyJson.ParseContext.Expect` | fairyjson/fairy_json.cpp:9 | the EXPECT macro: the current character is the expected one, and the cursor moves forward by exactly one |
| `FairyJson.ParseWhitespace` | fairyjson/fairy_json.cpp:23-28 | the cursor moves forward over space, tab, LF and CR only; it stops on the first other character; it never passes the NUL; the new cursor equals `SkipWs` of the old one |
| `FairyJson.ParseNull` | fairyjson/fairy_json.cpp:37-44 | requires the cursor to be on 'n'. If "null" follows, the result is OK, the cursor moves by 4 and the kind becomes null. Otherwise the result is invalid value, the cursor moves by 1 and the value is unchanged. No read goes past the first NUL |
| `FairyJson.ParseValue` | fairyjson/fairy_json.cpp:52-59 | 'n' is handed to ParseNull. The NUL gives expect value, and any other character gives invalid value. In those last two cases the cursor and the value are unchanged |
| `FairyJson.JsonParse` | fairyjson/fairy_json.cpp:61-67 | the value's kind is null on every return, whatever it was before; the status is `ParseResult` of the input; root-not-singular is never returned |
| `FairyJson.ParseOkIff` | fairyjson/fairy_json.cpp:61-67 | the parse returns OK if and only if the input, with leading whitespace trimmed, begins with "null" |
| `FairyJson.ParseExpectValueIff` | fairyjson/fairy_json.cpp:52-67 | the parse returns expect value if and only if every character before the first NUL is whitespace |
| `FairyJson.ParseInvalidOtherwise` | fairyjson/fairy_json.cpp:52-67 | the parse returns invalid value if and only if neither of the two cases above holds |
| `FairyJson.NullThenAnything` | fairyjson/fairy_json.cpp:37-67 | whitespace, then "null", then any C string parses as OK: nothing after the literal is inspected |
| `FairyJson.NullWithTrailingContent` | fairyjson/fairy_json.cpp:61-67 | "null x" parses as OK |
| `FairyJson.ParseNullClient` | fairyjson/test.cpp:25-31 | a value initialised as false and parsed from "null" yields OK, and its kind reads back as null |

## Left out

- The `true`/`false` literals, numbers, strings, arrays and objects are not modelled. Neither are trailing-content rejection, payload ownership and release. The code does not have them yet.
- The free-function declarations `fairy_parse` and `getType(const FiaryValue*)` (fairyjson/fairy_json.h:39-41) are not modelled. They are stale and match no definition. The model follows the `json_parse` and `FairyValue::getType` that are actually defined.
- fairyjson/test.cpp's printf reporting and global counters are I/O. Only its single check is modelled, as `ParseNullClient`.
- `malloc` in `fetchStrFromCharStack` is modelled as a fresh array allocation. Allocation failure is not modelled; the source does not check for it either. The `size_t` wrap-around of `len + 1` is not modelled either: no stack can hold that many elements.
- C `assert`s (in `EXPECT` and on `v != nullptr`) become preconditions and a non-null class type. A build with `NDEBUG` would skip them; that behaviour is not modelled.
- FairyJson.ParseContext.Expect: additionally requires the expected character to be something other than `'\0'`, so that the cursor stays within the string. The macro is only ever used with `'n'`.
- C `char` is modelled as Dafny's `char`, a Unicode scalar value, not as a possibly-signed byte. The code only compares against ASCII characters, and those comparisons give the same answers for bytes 0x80-0xFF, which are never digits or whitespace in either reading.
