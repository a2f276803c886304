# last-mnemonic-word in Dafny

A model of the two pieces of `main.go` that belong to the tool itself. The
first is `ordinal`, which writes the English ordinal label ("1st", "2nd",
"3rd", "4th", "11th", "112th", ...) shown in each word prompt. The second is
`doBuild`, which builds a 24-word BIP-39 mnemonic. The user picks the first
23 words from the word list. The tool scans the whole list for the words that
complete those 23 into a phrase with a correct checksum. The user picks one of
those words, and the tool appends it.

Modules:

- `Wrappers` (wrappers.dfy): the `Option` type.
- `Ordinals` (ordinal.dfy): `Decimal` (what `strconv.Itoa` does for x >= 0), `Suffix`, `Ordinal`, and
  `ParseOrdinal`, which reads a label back and serves as `Ordinal`'s inverse.
- `Phrase` (phrase.dfy): `Join` (`strings.Join(words, " ")`) and `Split`, which cuts text at single spaces and
  serves as `Join`'s inverse.
- `Build` (build.dfy): the prompt labels, the candidate filter as a function (`Completions`) and as the loop
  the source runs (`LastWordCandidates`), the 23-prompt loop (`SelectFirstWords`) and the whole of `doBuild`
  (`DoBuild`).

Things outside the model become parameters:

- `valid: string -> bool` is the checksum check, `bip39.MnemonicToByteArray(phrase)` returning no error. It
  belongs to the go-bip39 library, which is not part of this model. The filter's properties hold for every
  such predicate.
- `pickWord: string -> Option<nat>` is the word prompt. It maps a prompt label to the index the user
  selected, and `None` means the prompt failed. `LabelsDistinct` proves that the 23 labels differ, so a
  function of the label can stand for any sequence of answers.
- `pickLast: seq<string> -> Option<nat>` is the last-word prompt. It maps the items shown to the index
  selected.
- An outcome `Exit(code)` stands for `exitError(..., code)`.

About the code itself:

- The code has no error of its own for an empty candidate list or an unknown word. It filters the list, and an
  empty result gives an empty last prompt.
- The code does not bound the number of candidates. The capacity 8 in `make([]string, 0, 8)` is only a hint.
- The code fixes the length at 23 + 1 words.

## Model

| member | source | states |
|---|---|---|
| `Ordinals.Decimal` | main.go:36 | the number part of the label is canonical decimal text: digits only, no leading zero except for 0 itself, and it denotes x (its value read back is x) |
| `Ordinals.DecimalOfValue` | main.go:36 | every canonical decimal text is written by `Decimal` for the value it denotes, so `Decimal` and reading back are inverse bijections |
| `Ordinals.Suffix` | main.go:21-35 | the suffix is two letters; which two is stated by `SuffixRule` and `SuffixByTensDigit` |
| `Ordinals.SuffixRule` | main.go:21-35 | the suffix is always one of st, nd, rd, th; it is "st" exactly when x % 10 == 1 and x % 100 != 11 (likewise "nd" with 2/12 and "rd" with 3/13); it is "th" exactly when the last digit is not 1, 2 or 3 or x % 100 is 11, 12 or 13 |
| `Ordinals.SuffixByTensDigit` | main.go:22-35 | the switch on `x % 10` with its `x % 100` guards agrees with the English rule written on the digits: a tens digit of 1 gives "th", otherwise last digit 1/2/3 gives st/nd/rd, otherwise "th" |
| `Ordinals.Ordinal` | main.go:20-37 | a label is at least three characters; `OrdinalRoundTrip` states that it is the decimal text of x followed by x's suffix |
| `Ordinals.OrdinalRoundTrip` | main.go:20-37 | a string parses as a canonical decimal for x followed by x's suffix exactly when it is `ordinal(x)`, so the label is the decimal text of x followed by exactly one suffix |
| `Ordinals.OrdinalInjective` | main.go:20-37 | different numbers never get the same label |
| `Ordinals.TeensTakeTh` | main.go:22-34 | numbers ending in 11, 12 or 13 get "th" (11th, 112th, 213th) |
| `Ordinals.FirstLabels` | main.go:20-37 | labels 1st, 2nd, 3rd, 4th |
| `Ordinals.TeenLabels` | main.go:22-34 | labels 11th, 12th, 13th |
| `Ordinals.TwentiesLabels` | main.go:84-85 | `ordinal(21)`, `ordinal(22)` and `ordinal(23)`, used for the last three hand-picked positions, are 21st, 22nd and 23rd |
| `Ordinals.HundredTeenLabels` | main.go:22-34 | labels 112th and 213th |
| `Phrase.Join` | main.go:92 | `strings.Join(words, " ")`: for a non-empty list the text is as long as all the words together plus one space between each pair of neighbours; `SplitJoin` states that the words come back out of it |
| `Phrase.JoinSnoc` | main.go:92-95 | appending a word to a non-empty list adds one space and the word to the joined text |
| `Phrase.SplitJoin` | main.go:92-95 | joining non-empty, space-free words with single spaces and cutting at the spaces gives back the same words |
| `Phrase.JoinInjective` | main.go:106-108 | different word lists never join to the same mnemonic text |
| `Build.Label` | main.go:85 | the prompt label is at least 15 characters; `LabelCarriesOrdinal` states its content |
| `Build.LabelCarriesOrdinal` | main.go:85 | the label of position i begins with "Select ", ends with " word", and between them carries `ordinal(i+1)`, which reads back as i + 1 |
| `Build.LabelsDistinct` | main.go:84-85 | the prompt label "Select <ordinal(i+1)> word" is different for every position |
| `Build.FirstPromptLabel` | main.go:84-85 | the first prompt is labelled "Select 1st word" |
| `Build.LastPromptLabels` | main.go:84-85 | the prompts for positions 21 to 23 are labelled "Select 21st word", "Select 22nd word" and "Select 23rd word" |
| `Build.CandidatePhrase` | main.go:95 | `first23 + " " + word`: for a word without spaces, cutting the phrase at spaces gives the pieces of `first23` followed by the word |
| `Build.CandidateIsMnemonic` | main.go:92-95 | the phrase checked for candidate w (the 23 words joined by single spaces, a space, then w) is the join of the 24 words and splits back into exactly those 24 words |
| `Build.Completions` | main.go:93-99 | the candidate list is no longer than the word list, and each candidate is a list word whose phrase the check accepts |
| `Build.CompletionsAtPositions` | main.go:93-99 | the k-th candidate is the word at the k-th accepted position of the list |
| `Build.AcceptedPositionsIncrease` | main.go:94-98 | the accepted positions strictly increase, so the candidates keep list order |
| `Build.AcceptedPositionsExact` | main.go:94-98 | a list position is among the accepted ones exactly when the check accepts the phrase its word completes, so every entry is scanned with no early exit |
| `Build.CompletionsAreAcceptedEntries` | main.go:93-99 | the candidates are an order-preserving subsequence of the word list made of exactly the accepted entries |
| `Build.CompletionsMembership` | main.go:94-98 | a word is a candidate exactly when it is on the list and the check accepts the 23 words, a space, and the word |
| `Build.CompletionsDistinct` | main.go:93-99 | a word list without repeats yields candidates without repeats |
| `Build.LastWordCandidates` | main.go:93-99 | the loop over the whole list computes exactly `Completions`, and a word is in its result exactly when it is on the list and accepted |
| `Build.Picked` | main.go:84-91 | the 23 picked words are words of the list |
| `Build.SelectFirstWords` | main.go:79-91 | the 23-prompt loop succeeds exactly when every prompt is answered, and then word i is the list word selected at the prompt labelled for position i |
| `Build.Offered` | main.go:92-101 | the items shown at the last prompt are no more than the list's words, and each is a list word whose phrase (the picked words joined, a space, the word) the check accepts; `CompletionsMembership` gives the converse |
| `Build.DoBuild` | main.go:78-106 | exit code 1 exactly when a word prompt fails; exit code 2 exactly when all 23 prompts succeed and the last-word prompt fails; otherwise 24 words: the 23 picked words unchanged, then the item selected from the candidates, a list word, and the check accepts the joined mnemonic |

## Left out

- The BIP-39 codec (entropy and checksum bit packing, the SHA-256 checksum, `MnemonicToByteArray`) is in the
  go-bip39 library, which is not part of this model. The model treats it as the predicate parameter `valid`.
- The "at most 8 candidates" bound is not claimed. It depends on that codec, and the code does not enforce it.
- Command-line flags, language selection (`bip39.SetWordList` changes library-global state) and `-list`
  printing (main.go:39-72) are configuration and output, not logic.
- Terminal I/O is not modelled: the introduction text, the rendering of prompts, and printing the mnemonic.
  Prompts are reduced to the answers they return.
- `exitError` ending the process is modelled only as the `Exit(code)` outcome. The error message itself is
  left out.
- `Ordinals.Ordinal`: takes a `nat`, so negative inputs are left out. `ordinal` is called only with
  `i + 1 >= 1`, and Go's `%` truncates toward zero where Dafny's is Euclidean.
- Mnemonic lengths other than 24 words are left out: the code fixes 23 + 1 words.
- The word list is any sequence of strings. Its size of 2048 and its language are properties of the library's
  lists. Distinctness is a hypothesis of `Build.CompletionsDistinct` only.
- How the prompt behaves with an empty candidate list is not modelled. `pickLast` can only answer with an
  index into the items it shows, so on an empty list it must fail.
