# Verification of libdbusaccess

A Dafny model of the library's three hard parts, with proofs that they do what the library is for.

**The policy language** turns a text such as `1;group(privileged)&get(Passphrase)=allow` into decisions.

- `Scanner`, `ScannerModes` and `BareWords` model the start-condition scanner: longest match, string literals, and how
  its modes follow the parser.
- `Grammar`, `PolicyGrammar` and `ShiftMachine` model the grammar three times: as the ambiguous rules, as the
  shift-preferring machine that yacc makes of them, and as a recursive description; all three are proved to agree.
- `ScanLaws` and `PolicyTexts` give the meaning of policy texts piece by piece and character by character: what each
  way of building a text from smaller ones does to decisions.
- `PolicyPrinter` is a printer of policies that scanning and parsing undo, and `SplitTerms` proves the equivalence that
  the header promises for `user(uid:gid)`.
- `Memory`, `Arena` and `Driver` are the imperative side: the parser's arena of strings, nodes, entries and links, and
  the scanner and parser working on it one token at a time.
- `Policy` has the laws of compiled policies, `Meaning` goes from the text of a policy to its decision,
  `PolicyObjects` has the objects that are built, matched, compared and freed.

**The /proc status scanner** is one walk of a pointer over a buffer. `CredSpec` says line by line what a status text
means, `Cred` is the walk, `CredPrinter` prints status texts, and `StatusTexts` spells out numbers, words, keys and lines
in characters. `EndToEnd` goes from both texts to a decision.

**The peer cache** keeps a table of reference-counted peers per bus, each with a timer and a name watch.

- `PeerTrace` is the abstract expiring map and what it promises.
- `PeerState` is the state of the cache with its invariant, `PeerRuns` its steps and whole runs.
- `Peers` is the cache itself; every call and every callback is proved to be one of the steps. `PeerCalls` says what the
  steps do for the callers.

`Syntax`, `Numerals`, `Ascii` and `Wrappers` are shared. `dafny verify dfyconfig.toml` covers the whole project.

Where the code and its documentation differ, the model follows the code:

- The header shows `!`, `|`, `&` and parentheses without precedences (include/dbusaccess_policy.h:55-57). Only `!` has
  one (src/dbusaccess_policy1.y:79), and it never decides a conflict, so the parser always shifts: `a&b|c` is `a&(b|c)`
  and `!a&b` is `!(a&b)`. `Grammar.ParseIsReshape` says so for all expressions.
- The header asks for quotes around patterns with spaces (include/dbusaccess_policy.h:56-57). Patterns that are numbers
  or contain other characters than those of a word need them too; `BareWords.QuotesOptional` gives the exact condition.
- The header shows `user(uid)` for a numeric id (include/dbusaccess_policy.h:51-53), but a number is stored in an `int`,
  and negative ones are the wildcard: `user(4294967295)` is `user(*)`, and `user(010)` is user 8. `BareWords.NumberDenotes`
  says exactly which numbers denote themselves.
- "The rules are applied in the order" (include/dbusaccess_policy.h:47-48) means that the last rule that matches
  decides, and that the effective user 0 is not subject to them at all (`Policy.DecideAppend`,
  `PolicyObjects.CheckPolicy`).

## Model

| member | source | states |
|---|---|---|
| PolicyGrammar.CompilesExactly | src/dbusaccess_policy1.y:79-233 | a token sequence is accepted exactly if the ambiguous grammar derives it, in any way, with version 1 and known actions used with the right number of parameters: preferring to shift loses no sentence |
| ShiftMachine.PolicyShiftIsCompile | src/dbusaccess_policy1.y:79-233 | for every token sequence, the machine that always shifts on a conflict and the recursive description accept the same inputs and give the same entries |
| ShiftMachine.OperandIsExpr | src/dbusaccess_policy1.y:181-198 | with any stack of pending "!", "(" and "expr op", the machine takes the operand that the recursive description takes and then continues with its tree |
| ShiftMachine.EntriesShiftIs | src/dbusaccess_policy1.y:111-133 | the left-recursive list of entries gives the entries in source order, after those that were there |
| Grammar.ParseIsReshape | src/dbusaccess_policy1.y:181-198 | the sentence of any derivation is read as its right-nested reshaping: "op r" goes under the rightmost operand of the left side, so NOT reaches over it and AND does not bind tighter than OR |
| Grammar.ReshapeKeeps | src/dbusaccess_policy1.y:181-198 | reshaping a derivation to the right keeps its sentence, and it has a tree exactly if the original has one |
| Grammar.ParseExprSound | src/dbusaccess_policy1.y:181-198 | what is parsed is a right-nested derivation of exactly the consumed tokens, and no operator follows |
| Grammar.ParseExprComplete | src/dbusaccess_policy1.y:181-198 | every right-nested derivation is found, whatever follows it except an operator |
| Grammar.RightNestedUnique | src/dbusaccess_policy1.y:181-198 | a sentence has one right-nested derivation: the conflicts are resolved in exactly one way |
| Grammar.ParseTermYield | src/dbusaccess_policy1.y:200-231 | terms with their arguments are parsed back from their tokens, whatever follows |
| PolicyGrammar.ParsePolicySound | src/dbusaccess_policy1.y:83-143 | an accepted token sequence is the yield of the policy that was parsed, version, entries, accesses and final semicolon included |
| PolicyGrammar.ParsePolicyComplete | src/dbusaccess_policy1.y:83-143 | every right-nested policy is parsed back from its tokens |
| PolicyPrinter.RoundTrip | src/dbusaccess_policy1.y:83-231 | scanning and parsing a printed policy gives back exactly its entries, for every non-empty list of entries that a text can denote, over any action table, with or without "1;", the last ";" and "=allow", and in both quote styles |
| PolicyPrinter.DerivOfValue | src/dbusaccess_policy1.y:181-231 | putting parentheses around a left operand exactly if it is a negation or a binary operation gives a right-nested derivation whose tree is the expression |
| PolicyPrinter.LexShownAll | src/dbusaccess_policy1.l:72-137 | scanning the text of a legible token sequence gives back the tokens, from any start condition that fits |
| BareWords.QuotesOptional | src/dbusaccess_policy1.l:98-130 | a call is read with the parameter w written without quotes exactly if w is a non-empty run of word characters and not a number; the header asks for quotes only around spaces |
| BareWords.NumberNeedsQuotes | src/dbusaccess_policy1.y:220-231 | a parameter that is a number has no spaces and is rejected without quotes |
| BareWords.NumberDenotes | src/dbusaccess_policy1.l:39-55 | a number is rejected exactly if it has a leading zero and a digit 8 or 9; otherwise it denotes the id with its value exactly if that is below 2^31, and it is the wildcard exactly if bit 31 of its value, saturated at 64 bits, is set |
| BareWords.HighNumbersAreWild | src/dbusaccess_policy1.y:145-170 | the numbers from 2^31 to 2^32 - 1, valid unsigned ids, are read as the wildcard |
| BareWords.OctalSurprise | src/dbusaccess_policy1.l:39-55 | 010 is 8 |
| Scanner.NextIsBest | src/dbusaccess_policy1.l:67-137 | in every start condition some rule matches, and the one taken is the longest match, the first in the file among equals |
| Scanner.QuotedStrings | src/dbusaccess_policy1.l:72-105 | the values of terminated string literals are exactly the strings that do not end in a backslash |
| Scanner.ReadEscaped | src/dbusaccess_policy1.l:72-93 | escaping only the quote character and scanning back is the identity on strings that do not end in a backslash, whatever follows |
| Scanner.LexString | src/dbusaccess_policy1.l:72-105 | inside quotes nothing but the closing quote acts as syntax: the scanner returns the literal, or no token at all if it is not closed |
| ScanLaws.LexAppend | src/dbusaccess_policy1.l:67-131 | the scans of two texts join, unless a word goes on from one into the other or a quote is open between them |
| ScanLaws.SpacesBetween | src/dbusaccess_policy1.l:136 | white space at such a place adds no token and changes none |
| ScanLaws.WordCharsAre | src/dbusaccess_policy1.l:127-135 | words are made of letters, digits and "_-?*", names of letters, digits and "_-" |
| ScanLaws.SpacesAre | src/dbusaccess_policy1.l:136 | the six white space characters of the scanner, of which the status parser does not know the vertical tab |
| ScannerModes.ModesAgree | src/dbusaccess_policy1.l:67-137 | for every accepted text the start condition after each token is the one of the parser's position, and the scanner ends outside of arguments and quotes |
| ScannerModes.LexModes | src/dbusaccess_policy1.l:94-137 | the start conditions of any scan are those that its own tokens lead through, but for an unclosed literal at the end |
| Numerals.ReadDecimal | src/dbusaccess_policy1.l:39-55 | base 0 reads a number printed in decimal back, whole |
| Driver.Driver.ReadToken | src/dbusaccess_policy1.l:71-137 | one call of the scanner returns the first token that the rules give for the rest of the text, and leaves the rest |
| Driver.Driver.ApplyRule | src/dbusaccess_policy1.l:72-137 | the action of each rule on the start condition, the string buffer and the token; the copied string that goes with it is on alloc_list |
| Driver.CompileText | src/dbusaccess_parser.c:221-248 | the parser holds exactly the entries of the policy, in order, or there is none if the text is missing or not accepted; every node and string of those entries is on alloc_list and every link on link_list; of all objects created on the way, each was freed or belongs to the parser that is returned, and what was live before is untouched |
| Driver.ParseText | src/dbusaccess_parser.c:227-240 | parsing with a scanner of its own: success exactly if the policy is accepted, with its entries in the parser; every object created is freed, as the scanner is, or owned by the parser |
| Driver.Driver.ReadPolicy | src/dbusaccess_policy1.y:83-109 | the entries of the pure machine, on links of link_list, with all nodes and strings on alloc_list; nothing is created that the parser does not own |
| Driver.Driver.ReadVersion | src/dbusaccess_policy1.y:83-109 | a version must be 1, and may stand alone |
| Driver.Driver.ReadEntries | src/dbusaccess_policy1.y:111-119 | entries are collected in order by destructive concatenation of owned links |
| Driver.Driver.ReadEntry | src/dbusaccess_policy1.y:121-133 | one owned entry: wildcard or expression, with its access |
| Driver.Driver.ReadGrant | src/dbusaccess_policy1.y:121-143 | an equals sign and allow or deny |
| Driver.Driver.Append | src/dbusaccess_policy1.y:116-119 | the new entry is last, on a new link |
| Driver.Driver.ReadExpr | src/dbusaccess_policy1.y:181-198 | the expression built in the arena has the tree of the pure machine, and what is left to read is the same; all its nodes and strings are on alloc_list |
| Driver.Driver.Shift | src/dbusaccess_policy1.y:181-191 | where an operand is expected, NOT and a parenthesis are shifted and a term becomes a node |
| Driver.Driver.ShiftOrReduce | src/dbusaccess_policy1.y:181-198 | behind an expression an operator is always shifted |
| Driver.Driver.Reduce | src/dbusaccess_policy1.y:181-198 | without an operator the innermost pending NOT, operation or parenthesis is completed |
| Driver.Driver.ReadTerm | src/dbusaccess_policy1.y:200-226 | the owned node built for a term, or none if the action fails or the term is malformed |
| Driver.Driver.ReadUserArgs | src/dbusaccess_policy1.y:201-208 | user(u) and user(u:g), with the wildcard for a missing group |
| Driver.Driver.ReadGroupArgs | src/dbusaccess_policy1.y:209-212 | group(g) |
| Driver.Driver.ReadCallArgs | src/dbusaccess_policy1.y:213-231 | an action with or without a parameter |
| Driver.Driver.ReadId | src/dbusaccess_policy1.y:145-179 | a user or group: negative numbers and "*" are the wildcard, unknown names never match |
| Arena.Concat | src/dbusaccess_policy1.y:116-119 | concatenation hangs the second chain behind the last link of the first and changes no data |
| Arena.Parser.Delete | src/dbusaccess_parser.c:211-219 | every string, expression, entry and link, the buffer and the parser itself are freed exactly once, and nothing else |
| Arena.Parser.NewLink | src/dbusaccess_parser.c:95-104 | a new link, first on link_list; the data it carries is not owned through it |
| Arena.Parser.AddEntries | src/dbusaccess_parser.c:184-190 | the entries grow by the new chain at their end |
| Arena.Parser.LookupAction | src/dbusaccess_parser.c:77-93 | the first action with the name |
| Arena.Parser.NewExprCustom | src/dbusaccess_parser.c:130-152 | no node and nothing created for an unknown action, a missing or an unexpected parameter; otherwise a new node with the action's id and the parameter, first on alloc_list |
| Arena.Parser.NewExprIdentity | src/dbusaccess_parser.c:116-128 | a new node for the two ids, first on alloc_list |
| Arena.Parser.NewExprNot | src/dbusaccess_parser.c:154-169 | a new node with its operand, first on alloc_list; nothing else is created |
| Arena.Parser.NewExprBinary | src/dbusaccess_parser.c:154-169 | a new node with both operands, first on alloc_list; nothing else is created |
| Arena.Parser.NewEntry | src/dbusaccess_parser.c:171-182 | a new entry, first on alloc_list, with everything in it on alloc_list |
| Arena.Parser.NewString | src/dbusaccess_parser.c:106-114 | a new copy of the text, first on alloc_list |
| Arena.Parser.FinishString | src/dbusaccess_parser.c:68-75 | a new copy of the buffer, first on alloc_list; the buffer is empty afterwards |
| PolicyObjects.NewPolicy | src/dbusaccess_policy.c:527-545 | the rules of the compiled policy are the compiled entries in source order; of all objects created on the way each belongs to the policy or was freed, the whole parser included, and nothing that was live before is touched |
| PolicyObjects.NewExpr | src/dbusaccess_policy.c:476-505 | the compiled tree stands for the parsed one, misses no operand and shares no node, even if the parser's expression does; all new blocks, pattern specs included, belong to it |
| PolicyObjects.NewCustom | src/dbusaccess_policy.c:456-472 | a node for the action, with a pattern spec of its own unless the parameter is missing or "*" |
| PolicyObjects.FreeExpr | src/dbusaccess_policy.c:123-131 | each node and each pattern spec is freed once, and no other block |
| PolicyObjects.AddEntry | src/dbusaccess_policy.c:507-525 | the new entry goes behind the last one |
| PolicyObjects.HangAfter | src/dbusaccess_policy.c:517-524 | the entry goes behind the last one of the chain, or becomes the first |
| PolicyObjects.CopyEntries | src/dbusaccess_policy.c:534-539 | the parsed entries, each compiled, in the same order |
| PolicyObjects.Finalize | src/dbusaccess_policy.c:554-589 | every block of the policy is freed once, and nothing else |
| PolicyObjects.FreeExprs | src/dbusaccess_policy.c:560-564 | the expressions of all entries are freed, each node once |
| PolicyObjects.FreeChain | src/dbusaccess_policy.c:565 | all entries are freed, each once |
| PolicyObjects.MatchExpr | src/dbusaccess_policy.c:94-106 | the node-by-node match computes the meaning of the tree; a missing expression matches |
| PolicyObjects.MatchGroupLoop | src/dbusaccess_policy.c:318-340 | the loop finds an id exactly if it is the effective or a supplementary group |
| PolicyObjects.CheckPolicy | src/dbusaccess_policy.c:615-641 | root is allowed everything, with or without a policy; for every other caller, and for an unknown one, no policy leaves the default and otherwise the last matching rule decides |
| PolicyObjects.EqualExpr | src/dbusaccess_policy.c:108-121 | equality up to the order of operands; expressions that share no node take exactly the comparisons of the recursion, others no more, and these are at most size(x1) * size(x2) |
| PolicyObjects.EqualBinary | src/dbusaccess_policy.c:165-179 | both orders of operands are tried, with exactly the comparisons of the recursion if the trees share no node, and no more otherwise |
| Policy.ComparisonsBound | src/dbusaccess_policy.c:108-179 | comparing two trees takes at most size(x) * size(y) comparisons of nodes, although each pair of binary nodes may lead to four more |
| Policy.EveryNodeCompared | src/dbusaccess_policy.c:108-179 | expressions are not found equal before every node was compared |
| PolicyObjects.EqualPolicy | src/dbusaccess_policy.c:591-613 | two missing policies are equal, a missing one equals no other, and otherwise there are as many entries and at every place the same access and two wildcards or two expressions that differ by swapped operands |
| Policy.CompiledDecides | src/dbusaccess_policy.c:507-545 | compilation preserves meaning: the compiled decision is the evaluation of the parsed entries in source order |
| Policy.CompiledMatches | src/dbusaccess_policy.c:454-505 | a compiled expression matches exactly when the parsed one holds; the parameter "*" and a missing one take any argument or none |
| Policy.IdentityMeans | src/dbusaccess_policy.c:302-351 | for every id that a policy can hold: the wildcard matches anyone, known or not, the invalid id nobody, and any other id exactly the callers who have it |
| Meaning.PolicyMeans | src/dbusaccess_policy.c:527-641 | the decision of an accepted policy is what its text says: the terms joined as the grammar joins them, entry after entry, with allow as the default access |
| Meaning.ExprMeans | src/dbusaccess_policy1.y:181-231 | a compiled expression matches exactly when its text holds, term by term |
| Meaning.TermMeans | src/dbusaccess_policy1.y:145-231 | a compiled term matches exactly the callers, actions and arguments that its text speaks of |
| Meaning.UserMeans | src/dbusaccess_policy.c:302-316 | a user written as a number, a known or unknown name or the wildcard matches exactly the callers it denotes |
| Meaning.GroupMeans | src/dbusaccess_policy.c:318-340 | the same for a group, effective or supplementary |
| Meaning.CallMeans | src/dbusaccess_parser.c:130-152 | an accepted call is about the first action of its name, with a parameter exactly if that action takes one |
| Meaning.FoundIsFirst | src/dbusaccess_parser.c:77-93 | the action found for a name is the first one in the table that has it |
| PolicyTexts.AndText | src/dbusaccess_policy1.y:181-198 | for any texts l and r, l a term or in parentheses, the text l&r applies exactly if both do |
| PolicyTexts.OrText | src/dbusaccess_policy1.y:181-198 | the text l&#124;r applies exactly if l or r does |
| PolicyTexts.NotText | src/dbusaccess_policy1.y:181-187 | a "!" before any text of an expression, however long, negates all of it |
| PolicyTexts.ParenText | src/dbusaccess_policy1.y:188-191 | parentheses around a text change nothing but that it may stand to the left of an operator |
| PolicyTexts.SpacesText | src/dbusaccess_policy1.l:136 | white space between any two tokens, or around them, changes nothing |
| PolicyTexts.UserText | src/dbusaccess_policy1.y:145-204 | user(n) with n below 2^31 is about the caller with effective id n, user(name) about the id that the system has for the name, and user(*) about everyone, known or not |
| PolicyTexts.GroupText | src/dbusaccess_policy1.y:163-212 | the same for group(n), group(name) and group(*), with the effective or any supplementary group |
| PolicyTexts.UserGroupText | include/dbusaccess_policy.h:51-53 | user(u:g) applies exactly if user(u) and group(g) do, however u and g are written |
| PolicyTexts.CallText | src/dbusaccess_parser.c:130-152 | a call is an expression exactly if the first action of its name takes a parameter exactly if one is written; it is about that action, and about arguments that match the parameter unless that is "*" |
| PolicyTexts.UnknownText | src/dbusaccess_parser.c:130-139 | a call of a name that no action has is no expression |
| PolicyTexts.WordArgument | src/dbusaccess_policy1.l:127-130 | a run of word characters that is no number is a parameter as it is |
| PolicyTexts.QuotedArgument | src/dbusaccess_policy1.l:72-105 | any string that does not end in a backslash is a parameter in either kind of quotes, with a backslash before each such quote in it |
| PolicyTexts.EscapeNext | src/dbusaccess_policy1.l:72-93 | a quote in a string is written with a backslash before it, and the text up to it stays as it is |
| PolicyTexts.RuleText | src/dbusaccess_policy1.y:121-143 | a policy of one expression allows what it applies to, with or without "=allow", denies it with "=deny", and leaves everything else to the default |
| PolicyTexts.StarText | src/dbusaccess_policy1.y:122-125 | "*=allow" allows and "*=deny" denies every check |
| PolicyTexts.AfterText | src/dbusaccess_policy1.y:111-119 | for any policy texts p and q, the text p;q decides as q does with the decision of p as its default: later rules override earlier ones |
| PolicyTexts.AfterRules | src/dbusaccess_policy1.y:111-119 | the rules of p;q are those of p followed by those of q |
| PolicyTexts.SemiText | src/dbusaccess_policy1.y:85-101 | a semicolon at the end changes nothing |
| PolicyTexts.VersionText | src/dbusaccess_policy1.y:103-109 | "1" is a policy without rules, and any other number, alone or before a semicolon and anything else, makes the text no policy |
| PolicyTexts.BlankText | src/dbusaccess_policy1.y:83-101 | a text of white space only is no policy |
| PolicyTexts.RootText | src/dbusaccess_policy.c:624-626 | the effective user 0 is allowed everything, whatever the text |
| PolicyTexts.NoPolicyText | src/dbusaccess_policy.c:623-640 | a text that is no policy leaves the default to everyone else |
| Policy.DecideAppend | src/dbusaccess_policy.c:615-641 | the decision of P followed by Q is that of Q with the decision of P as default: the last match wins |
| Policy.DecideIsLast | src/dbusaccess_policy.c:627-638 | the last rule that is a wildcard or matches decides; if there is none, the default is left |
| Policy.WildcardCutsOff | src/dbusaccess_policy.c:615-641 | everything before a wildcard rule is irrelevant |
| Policy.MergeWithOr | src/dbusaccess_policy.c:615-641 | adjacent rules with equal access may be merged with OR |
| Policy.SplitDecides | include/dbusaccess_policy.h:51-53 | writing user(u:g) as user(u)&group(g) anywhere in any policy changes no decision |
| SplitTerms.SplitText | include/dbusaccess_policy.h:51-53 | writing some user(u:g) as (user(u)&group(g)) in the text of any policy changes neither whether it is accepted nor any decision |
| SplitTerms.ParenthesesNeeded | src/dbusaccess_policy1.y:181-198 | without the parentheses the rest of the expression goes under the AND |
| SplitTerms.ParenthesesMatter | include/dbusaccess_policy.h:51-53 | user(1:2)&#124;user(3) and user(1)&group(2)&#124;user(3) differ on user 3 |
| Policy.EqualIsSwapping | src/dbusaccess_policy.c:165-179 | two expressions are equal exactly if swapping the operands of some AND and OR nodes of one makes it the other, up to equal patterns |
| Policy.EqualLeaves | src/dbusaccess_policy.c:354-440 | terms are equal if both ids are, or the action and the pattern; a missing pattern equals a missing one only |
| Policy.EqualAnywhere | src/dbusaccess_policy.c:108-179 | equality allows swapping at any node and respects NOT, AND and OR |
| Policy.EqualRefl | src/dbusaccess_policy.c:108-121 | equality is reflexive |
| Policy.EqualSym | src/dbusaccess_policy.c:108-121 | equality is symmetric |
| Policy.EqualTrans | src/dbusaccess_policy.c:108-121 | equality is transitive |
| Policy.EqualMatches | src/dbusaccess_policy.c:108-179 | equal expressions match the same checks |
| Policy.EqualPoliciesExactly | src/dbusaccess_policy.c:591-613 | policies are equal exactly if they have as many rules and at every place the same access and two wildcards or two expressions that differ by swapped operands; no policy equals only no policy |
| Policy.EqualPoliciesDecideAlike | src/dbusaccess_policy.c:591-641 | equal policies give the same decision for every caller, known or not, action, argument and default |
| Cred.Parse | src/dbusaccess_cred.c:117-202 | the pointer walk stays in the buffer, ends, and fills in what the first line of each of the four keys says, for every text; it succeeds exactly if both effective ids are good |
| Cred.ParseField | src/dbusaccess_cred.c:135-193 | the chain of key tests: the first key that is missing still and that the line has is taken, any other line changes nothing |
| Cred.SkipToKey | src/dbusaccess_cred.c:129 | spaces and blank lines before a key change nothing |
| Cred.SkipKey | src/dbusaccess_cred.c:131-133 | the key ends at the first space, at the first colon or with the text |
| Cred.ParseValues | src/dbusaccess_cred.c:81-105 | the words of the rest of the line, and the end of the line |
| Cred.Match | src/dbusaccess_cred.c:107-115 | true exactly if the key equals the name up to case; no read goes behind the NUL of the key |
| Cred.FillGroups | src/dbusaccess_cred.c:170-178 | the buffer starts with the valid ids among the words, in order, and is never written past the number of words |
| Cred.ParseGroups | src/dbusaccess_cred.c:162-182 | the Groups line: a buffer for all words, referred to by the credential only if an id is valid |
| Cred.ParseUid | src/dbusaccess_cred.c:140-150 | the second of exactly four words, if it is a 32-bit number |
| Cred.ParseGid | src/dbusaccess_cred.c:151-161 | the second of exactly four words, if it is a 32-bit number |
| Cred.ParseCapEff | src/dbusaccess_cred.c:183-192 | the only word, if it is a hexadecimal number |
| StatusTexts.Uint32Is | src/dbusaccess_cred.c:45-63 | a word is an id exactly if all of it is a decimal number, or octal behind a 0, or hexadecimal behind 0x, and its value is below 2^32 |
| StatusTexts.SignedUint32 | src/dbusaccess_cred.c:45-63 | a plus sign changes nothing; behind a minus sign 0 is 0, and other numbers are ids only if they wrap around at 64 bits |
| StatusTexts.Uint64Is | src/dbusaccess_cred.c:65-79 | a word is a capability set exactly if all of it is hexadecimal, with or without 0x; values saturate at 64 bits |
| StatusTexts.DigitValueIs | src/dbusaccess_cred.c:45-79 | which characters are digits, and their values |
| StatusTexts.PlaceValue | src/dbusaccess_cred.c:45-79 | each digit multiplies the value before it by the base |
| StatusTexts.WordsAre | src/dbusaccess_cred.c:92-104 | the words of a value are what its white space separates |
| StatusTexts.EffectiveId | src/dbusaccess_cred.c:140-161 | the effective id is the second of four words, if that is a number; any other number of words gives none |
| StatusTexts.GroupIdsAppend | src/dbusaccess_cred.c:170-178 | a word that is a number adds its id at the end, any other word adds nothing |
| StatusTexts.GarbageIgnored | test/test_cred/test_cred.c:447-485 | the groups "39 100 garbage 100000" are 39, 100 and 100000, and the ids "100000 xxx 998 998" are none |
| StatusTexts.KeyNames | src/dbusaccess_cred.c:107-183 | the four keys, letter by letter in upper or lower case |
| StatusTexts.KeyedLine | src/dbusaccess_cred.c:129-139 | white space may stand before a key; behind it only a colon may follow at once, and what comes then is the value |
| StatusTexts.LinesAre | src/dbusaccess_cred.c:194-196 | newlines end lines |
| StatusTexts.FirstCounts | src/dbusaccess_cred.c:138-183 | the value of a key is that of the first line that has it |
| CredSpec.EarlyExit | src/dbusaccess_cred.c:128 | once all four keys were seen, the rest of the text changes nothing |
| CredSpec.AddTextCompletes | src/dbusaccess_cred.c:128-199 | finding values line after line gives the first value of each key, so the order of lines and of key tests does not matter |
| CredPrinter.RoundTrip | test/test_cred/test_cred.c:97-134 | the status text of a process gives back its effective ids, its groups in order and its effective capabilities, with any unrelated lines anywhere |
| CredPrinter.ParsePrinted | src/dbusaccess_cred.c:117-202 | the walk over a printed status text fills in exactly the printed credential |
| CredPrinter.GroupsRoundTrip | src/dbusaccess_cred.c:162-182 | the words of a printed group list are its ids, in order |
| CredPrinter.IdsRoundTrip | src/dbusaccess_cred.c:140-161 | the effective id is read back from four printed ids |
| CredPrinter.CapsRoundTrip | src/dbusaccess_cred.c:183-192 | the capabilities are read back from their 16 digits |
| Numerals.ReadHex | src/dbusaccess_cred.c:65-79 | base 16 reads a 16-digit hexadecimal number back, whole |
| Numerals.OctalForm | src/dbusaccess_cred.c:45-63 | in base 0 a leading zero makes a number octal |
| Numerals.HexForm | src/dbusaccess_cred.c:45-63 | in base 0 a leading 0x makes a number hexadecimal |
| Numerals.DecimalForm | src/dbusaccess_cred.c:45-63 | in base 0 any other number is decimal, and saturates at 64 bits |
| EndToEnd.GroupHoldsIff | src/dbusaccess_policy.c:318-340 | for an id that a policy can name, group(g) holds of a process exactly if g is its effective group or a valid word on the first Groups line says g |
| EndToEnd.GroupIdsAre | src/dbusaccess_cred.c:170-178 | the group ids are exactly what the valid words say |
| EndToEnd.DecisionDependsOnWords | src/dbusaccess_policy.c:615-641 | a decision depends on nothing in a status file but the effective ids and the set of valid words on the first Groups line |
| EndToEnd.PrintedDecision | src/dbusaccess_policy.c:615-641 | a policy and a process, both written as text, lead to the decision that the policy's entries give for the process's ids |
| PeerRuns.RunKeeps | src/dbusaccess_peer.c:46-337 | every state of every run is valid: callbacks, tables, reference counts, connections, addresses and history |
| PeerRuns.NextKeeps | src/dbusaccess_peer.c:216-337 | every step keeps the invariant |
| PeerRuns.CallbacksAreLive | src/dbusaccess_peer.c:109-213 | after every run a pending timer or watch carries a live peer that is in its own bus's table under its own name; a peer in a table has exactly one of each, another one has none |
| PeerRuns.FinalizedOnce | src/dbusaccess_peer.c:201-238 | every peer ever allocated is live with exactly the references it counts, or was finalized by exactly one step of the run |
| PeerRuns.FinalizedAtZero | src/dbusaccess_peer.c:216-238 | the step that finalizes a peer takes its last reference, or is the failed get that created it |
| PeerRuns.NextKeepsIdentity | src/dbusaccess_peer.c:264-309 | a peer keeps its bus, name, process id and credentials as long as it lives |
| PeerRuns.ConnectedWhileCached | src/dbusaccess_peer.c:73-137 | a bus is connected exactly while its table holds a peer |
| PeerRuns.CachedIffFetched | src/dbusaccess_peer.c:264-337 | a name is in the table exactly if it was fetched successfully and has since had no flush, vanishing or timeout; its peer has the process id and the credentials of that fetch |
| PeerRuns.TablesRefineMaps | src/dbusaccess_peer.c:73-337 | each table is the abstract expiring map that the events leave behind, and the events of the other bus do not matter to it |
| PeerRuns.TimedOutUnasked | src/dbusaccess_peer.c:150-182 | a timeout removal implies that nobody got the name in the last 30 seconds |
| PeerTrace.KnownIffFetched | src/dbusaccess_peer.c:264-337 | the same for the abstract map: what is known is the result of the last fetch that nothing has undone |
| PeerTrace.AskedIsLatest | src/dbusaccess_peer.c:172-182 | while a name is known, its last request is not before any get of it |
| PeerTrace.ExpiresUnasked | src/dbusaccess_peer.c:150-182 | the same for any possible history: a timeout comes at least 30 seconds after every get of the name |
| PeerTrace.BusesAreIndependent | src/dbusaccess_peer.c:73-107 | the two buses never affect each other |
| Peers.PeerCache.Get | src/dbusaccess_peer.c:264-309 | a hit returns the cached peer, restarts its timer for 30 seconds and makes no bus call; a miss makes one, and caches a new peer exactly if the process id and both effective ids become known; otherwise nothing remains but used-up addresses and ids. 0 is the system bus, 1 the session bus, any other number fails, and the table of the other bus is left as it was |
| Peers.PeerCache.GetFrom | src/dbusaccess_peer.c:270-305 | the get on a connected bus: what is returned is in its table under the name, and the other table is left as it was |
| Peers.PeerCache.Revive | src/dbusaccess_peer.c:271-275 | a hit restarts the timer of the cached peer and changes nothing else |
| Peers.PeerCache.Ask | src/dbusaccess_peer.c:278-305 | a miss asks the bus once and ends in a cached peer or in nothing |
| Peers.PeerCache.Answered | src/dbusaccess_peer.c:284-300 | once the process id is known, the peer is created and either cached with its credentials or finalized at once |
| Peers.PeerCache.CachePeer | src/dbusaccess_peer.c:293-296 | the new peer is in the table of its bus under its own name |
| Peers.PeerCache.Discard | src/dbusaccess_peer.c:297-299 | a peer without good credentials is finalized at once, with its timer and watch |
| PeerCalls.RemovalForgets | src/dbusaccess_peer.c:139-171 | a timeout, a vanished name or a flush takes exactly one name out of one table, leaves no callback with its peer, and frees it unless a caller holds it |
| PeerCalls.FlushAllForgets | src/dbusaccess_peer.c:324-335 | a flush of a bus does so for all of its names, and leaves the other bus alone |
| Peers.PeerCache.GiveUp | src/dbusaccess_peer.c:304 | a bus that was connected for a failed get is left again |
| Peers.PeerCache.Flush | src/dbusaccess_peer.c:311-337 | on bus 0 or 1 one name or all names are forgotten: they leave the table of that bus, no callback carries their peers any more, and those that no caller holds are freed; the other table is left as it was |
| Peers.PeerCache.FlushPeer | src/dbusaccess_peer.c:318-323 | the name is forgotten, and its peer finalized unless a caller holds it |
| Peers.PeerCache.FlushTable | src/dbusaccess_peer.c:324-335 | all timers and watches are stopped, then the table gives all its references back, and the connection goes |
| Peers.PeerCache.Timeout | src/dbusaccess_peer.c:150-160 | the peer leaves its table and no other does; the source is gone afterwards, no callback carries the peer, and it is finalized unless a caller holds it |
| Peers.PeerCache.Vanished | src/dbusaccess_peer.c:162-171 | the peer leaves its table and no other does; no callback carries it any more, and it is finalized unless a caller holds it |
| Peers.PeerCache.TakeRef | src/dbusaccess_peer.c:216-225 | the count and the caller's references grow by one, and no other peer changes |
| Peers.PeerCache.DropRef | src/dbusaccess_peer.c:227-238 | the count and the caller's references shrink by one; the last reference frees the peer, and no callback changes |
| Peers.PeerCache.Remove | src/dbusaccess_peer.c:139-148 | timer and watch are stopped, the table entry and its reference go, and with the last entry the table and the connection |
| Peers.PeerCache.Release | src/dbusaccess_peer.c:227-238 | the last reference finalizes the peer, any other one is only counted |
| Peers.PeerCache.FinalizePeer | src/dbusaccess_peer.c:201-214 | pending timer and watch are stopped, the groups buffer and the block are freed |
| Peers.PeerCache.Dispose | src/dbusaccess_peer.c:109-122 | pending timer and watch are stopped and forgotten |
| Peers.PeerCache.Cleanup | src/dbusaccess_peer.c:124-137 | an empty table goes, and the connection with it |
| Peers.PeerCache.GetBus | src/dbusaccess_peer.c:73-107 | 0 gives the record of the system bus and 1 that of the session bus, connected and with a table, if the connection is there or made; any other number or a failed connection gives none; the other record is left as it was |
| Peers.PeerCache.ResetTimeout | src/dbusaccess_peer.c:172-182 | the old timer is replaced by one that is due 30 seconds from now |
| Peers.PeerCache.NewPeer | src/dbusaccess_peer.c:184-199 | a new peer with one reference, one timer and one watch |
| Peers.PeerCache.FillCred | src/dbusaccess_peer.c:240-262 | the credential is what the status text says; it is good exactly if both effective ids are; the groups buffer is allocated exactly for a Groups line with words |
| Peers.PeerCache.DisposeAll | src/dbusaccess_peer.c:328-332 | every timer and watch of the table is stopped, and no other |
| Peers.PeerCache.ReleaseAll | src/dbusaccess_peer.c:333 | every peer of the table loses one reference, and exactly those without another one are finalized |

## Left out

- Numerals.Strtoull: a word with a sign whose digits exceed 64 bits; the C library and GLib differ on it.
- Numerals.ReadDecimal: `unsigned long` has 64 bits here; with 32 bits larger numbers would saturate earlier.
- Policy.EqualPoliciesDecideAlike: the pattern matcher is a parameter, assumed to have an equality that is an equivalence and makes equal patterns match the same strings.
- PolicyPrinter.RoundTrip: the id that never matches has no text of its own, and white space between tokens is not printed.
- PolicyObjects.Finalize: is the last `da_policy_unref`; the counting of policy references is not modelled.
- Driver.CompileText: the scanner can always be created, and its buffer is part of it; tokens are handed to a hand-written loop with the generated parser's shifts and reductions instead of its tables.
- Arena.Parser.Delete: the cells of alloc_list and link_list themselves are not blocks of their own.
- Cred.Parse: the bits of the walk's flags are a set, and the list of words is a sequence whose strings are not blocks of the ledger.
- Peers.PeerCache.Get: peers are blocks of a map from addresses, because their use after free is what is ruled out; the bus call, the connection and the file are parameters, and main-loop callbacks do not happen during a get, as in the blocking call.
- Peers.PeerCache.FillCred: the block keeps the values that the credential says instead of the credential's fields.
- Peers.PeerCache.Timeout: timers do not fire before their interval is over; they may fire any time later.
- PeerRuns.FinalizedOnce: callers give back only references that they took; counters do not wrap around.
- Lookup of users and groups is a map from names to ids.
- Characters are 7-bit ASCII without NUL, as in the texts the library is made for.
- The credentials of the own process and of other processes by id (src/dbusaccess_self.c, src/dbusaccess_proc.c): the peer pattern in a smaller form.
- Logging, packaging and the command line tool.
