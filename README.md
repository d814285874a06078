# Register username: submit-time validation

This project models the decision logic of the `Home` page of a Next.js app.
On that page a user re-submits a username for registration. The page holds
three pieces of state: the 12-word secret key typed into a textarea, the
username typed into an input, and an error message shown under them. When
the form is submitted, the handler clears the error message. It then runs
three checks in order, and the first one that fails sets the message:

1. an empty secret key gives "Secret key is required";
2. a secret key whose `split(" ")` does not give exactly 12 pieces gives
   "Secret key must be 12 words";
3. an empty username gives "Username is required".

If every check passes, the message stays cleared.

The model has three modules:

- `StringSplit` (split.dfy) models JavaScript's `String.prototype.split`
  with a one-character separator on `seq<char>`. The string is cut at every
  separator. Nothing is trimmed and runs of separators are not collapsed.
  The empty string gives one empty piece. `Join` is its inverse. The lemmas
  prove both round trips and that there is one more piece than there are
  separators.
- `Home` (home.dfy) holds the three messages and the pure decision
  `Validate(secretKey, username)`, which returns `Option<string>`. It also
  holds the class `HomeForm`. Its fields `secretKey`, `username` and
  `errorMessage` are the page's state. Its `Submit` method is the handler:
  it clears `errorMessage`, then stops at the first failing check, with the
  same early returns as the source.
- `HomeProperties` (home_properties.dfy) holds the lemmas that relate
  several inputs. A key of spaces only is judged by its count of spaces.
  One extra space anywhere makes a passing key fail. The keys that pass are
  exactly twelve space-free words joined by single spaces. A failing secret
  key hides the username check.

## Model

| member | source | states |
|---|---|---|
| `StringSplit.Split` | pages/index.tsx:18 | `split(" ")` always gives at least one piece, even for the empty string |
| `StringSplit.SplitLength` | pages/index.tsx:18 | the length of `split(" ")` is the number of space characters plus one, with no trimming and no collapsing |
| `StringSplit.SplitSeparatorFree` | pages/index.tsx:18 | no piece returned by `split(" ")` contains the separator |
| `StringSplit.JoinSplit` | pages/index.tsx:18 | joining the pieces with the separator gives back the original key, so `split` loses nothing |
| `StringSplit.SplitJoin` | pages/index.tsx:18 | splitting a join of separator-free pieces gives back exactly those pieces |
| `StringSplit.JoinCount` | pages/index.tsx:18 | a join of n separator-free pieces contains exactly n - 1 separators |
| `StringSplit.CountInsert` | pages/index.tsx:18 | inserting one separator anywhere raises the separator count, and so the piece count, by exactly one |
| `Home.Validate` | pages/index.tsx:14-26 | an empty key gives "Secret key is required" whatever the username; a non-empty key that does not hold exactly 11 spaces gives "Secret key must be 12 words"; otherwise an empty username gives "Username is required" and a non-empty one gives no message |
| `Home.HomeForm.constructor` | pages/index.tsx:6-8 | the page starts with both fields empty and no error message |
| `Home.HomeForm.Submit` | pages/index.tsx:10-27 | after a submit, `errorMessage` is exactly `Validate(secretKey, username)`, whatever message was there before; `secretKey` and `username` are unchanged and only `errorMessage` is written |
| `HomeProperties.SpacesOnlyKey` | pages/index.tsx:14-21 | a key of n spaces only counts as non-empty when n > 0 and is judged by the word count alone; exactly 11 spaces pass both key checks |
| `HomeProperties.ExtraSpaceRejected` | pages/index.tsx:18-21 | adding one space anywhere to a key that passes the word-count check makes it fail that check (a doubled, leading or trailing space is not ignored) |
| `HomeProperties.TwelveWordsPassKeyChecks` | pages/index.tsx:14-26 | any twelve space-free words (empty words included) joined by single spaces pass both key checks, and the outcome then depends only on whether the username is empty |
| `HomeProperties.PassingKeyIsTwelveWords` | pages/index.tsx:14-26 | when no message is set, `split(" ")` of the key gives exactly twelve space-free pieces, and they join back to the key |
| `HomeProperties.KeyErrorHidesUsername` | pages/index.tsx:14-21 | when the secret key fails, the message is the same for every username, because the username check is never reached |
| `HomeProperties.BlankUsernamePasses` | pages/index.tsx:23-26 | a username made only of spaces is not empty, so with a twelve-word key no message is set |
| `HomeProperties.TwelveWordExample` | pages/index.tsx:14-26 | the join of the words one … twelve by single spaces, with username "AB", sets no message, because the username's length is not checked |
| `HomeProperties.ElevenWordExample` | pages/index.tsx:18-21 | the join of the words one … eleven by single spaces, with username "valid_user1", gives "Secret key must be 12 words" |

## Left out

- Rendering (pages/index.tsx:29-58) is not modelled. This covers the JSX,
  the CSS module classes and the truthiness test that decides whether the
  message paragraph is shown. None of it makes a decision about the input.
- The `onChange` handlers that copy the textarea and input values into
  state (pages/index.tsx:38, 47) are not modelled as methods. `HomeForm`'s
  fields are public, so a caller assigns them directly, as the handlers do.
- React's `useState` hooks and `e.preventDefault()` (pages/index.tsx:6-8,
  11) are framework plumbing. The state is plain fields and the event is not
  modelled. So React's batching of `setErrorMessage(null)` with a later
  `setErrorMessage(...)` is not modelled either. `Submit` assigns twice, and
  only the final value can be observed, as with the batched update.
- JavaScript strings are sequences of UTF-16 code units. Here they are
  `seq<char>`. This makes no difference to the checks, which only compare
  with the empty string and look for the one-unit separator `" "`.
- `split` is modelled only for a one-character separator and no limit
  argument, the one form the page uses.
- The handler does not trim the secret key before the emptiness check.
  It splits on single spaces only, not on any whitespace. It has no
  username length or character-set rules, no lowercasing, no availability
  lookup and no table from error kinds to messages. The three messages are
  the literal strings the handler sets.
