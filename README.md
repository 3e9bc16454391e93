# TRPG dice roller: a Dafny model of `DiceRoller`

This project models the `DiceRoller` class of the TRPG dice roller. The
class appears twice, as two near-identical copies:
- `dicer.py`, whose `evaluate_expression` deletes every flag it finds;
- `Dicer.py`, whose `evaluate_expression` deletes only the space-prefixed flags it acted on.

The model covers the five parts of the class:
- `roll_dice`: the prefix match of `[count]d<sides>[±mod]`, the draws, the total and the `+`-joined breakdown;
- `check_success`: the threshold, floor-divided for hard and extreme checks;
- `evaluate_expression`: flags, the optional `target/` prefix, the `1d100` critical override, the result line, and every exception turned into a line that starts with `错误：`;
- `quick_roll`: `.r [n]`;
- `repeat_roll` and `_execute_rolls`: `.m -n`, `.d` and `.t`, which print one numbered line per trial.

Randomness is an input. `random.randint(1, sides)` becomes the next element of a draw stream `draws: seq<int>`. A precondition puts each draw the roll takes in `[1, sides]`. Each operation reports how many draws it took, or the part of the stream it left over. Everything else is deterministic and specified outright.

Modules, one per file:
- `Wrappers` (`wrappers.dfy`): `Option`.
- `Text` (`text.dfy`): Python string operations on `seq<char>`. These are `in`, `replace(p, '')`, `strip`, `split`, `join`, `str` of an integer and `int()`.
- `Pattern` (`pattern.dfy`): the regular expression `(\d*)d(\d+)([+-]\d+)?` under `re.match`. Its greedy, backtracking semantics are worked out as positions and proved unique.
- `Dice` (`dice.dfy`):
  - faults and error lines;
  - `roll_dice`;
  - `check_success` and the level labels.
- `EveryFlag` (`flags_every.dfy`): the options loop of `dicer.py`. It is a method over a `map` that it updates in place, proved equal to its specification function.
- `SpacedFlag` (`flags_spaced.dfy`): the reassignments of `Dicer.py`, as a method proved equal to its specification function.
- `Engine` (`engine.dfy`): the rest of `evaluate_expression`, shared by both copies. `Variant` selects the copy.
- `Commands` (`commands.dfy`): `quick_roll`, `repeat_roll` and `_execute_rolls`. The last is a loop that appends to a list, proved against the function `Trials`.
- `Worked` (`worked.dfy`): the expression `"50/1d100+2 -e"` from the docstring at Dicer.py:46, followed through every step, and `.r` with a draw of 42.

How the flags set the level, in both copies:
- `-h` anywhere in the expression always gives a hard check.
- Deleting the gamble flag can join the text around it into a new level flag. That new flag counts as if it had been written:
  - `--gh` holds no `-h` and no `-e`, yet `dicer.py` reads it as hard (`EveryFlag.HardFromDeletion`). `Dicer.py` does the same with `- -gh`.
  - `--ge` holds neither flag, yet `dicer.py` reads it as extreme (`EveryFlag.ExtremeFromDeletion`). `Dicer.py` does the same with `- -ge`.
  - By the same route `--gh -e` is hard, not extreme.
- So "`-e` gives extreme, else normal" holds only when the deletion forms no new `-h` or `-e`.
  - The lemmas for an extreme check ask for no `h` anywhere in the expression.
  - The lemmas for a normal check ask for no `h` and no `e` anywhere.

The two copies differ only in the flag stripping and in their docstrings and comments, which are not modelled.

Outside the flag stripping, rows below that cite `dicer.py` hold equally for the copy in `Dicer.py`:
- `roll_dice` and `check_success` are at Dicer.py:62-98;
- `evaluate_expression` after the flags is at Dicer.py:117-156;
- `quick_roll`, `repeat_roll` and `_execute_rolls` are at Dicer.py:159-200.

## Model

| member | source | states |
|---|---|---|
| Text.Split | dicer.py:140 | `s.split(c)` gives at least one part; no part holds `c`; joining the parts with `c` gives `s` back |
| Text.SplitJoin | dicer.py:253 | splitting `"\n".join(parts)` on the line break gives back exactly `parts` when no part holds a line break |
| Text.SplitAfterFirst | dicer.py:140 | the split of `x + c + y` is `x` followed by the split of `y` when `c` is not in `x` |
| Text.SplitWithout | dicer.py:139 | text without the separator splits into itself alone |
| Text.ParseDigits | dicer.py:64-68 | `int()` of a non-empty run of ASCII digits is its decimal value |
| Text.ParseIntToString | dicer.py:76 | `int(str(i)) == i` for every integer |
| Text.NatToString | dicer.py:190 | `str(n)` is a non-empty run of digits that reads back as `n`, with no leading zero |
| Text.IntToString | dicer.py:76 | `str(i)` is non-empty and made of digits and `-` only |
| Text.RemoveAllAbsent | dicer.py:132 | `s.replace(p, '')` leaves `s` unchanged when `p` does not occur |
| Text.RemoveAllKeepsPrefix | dicer.py:132 | `replace(p, '')` keeps the characters before the first occurrence of `p` as they are |
| Text.RemoveAllKeepsOther | dicer.py:132 | deleting `p` never destroys an occurrence of a `q` that cannot overlap `p` |
| Text.RemoveTrailing | Dicer.py:115 | deleting a suffix whose first character does not occur before it leaves the text before it |
| Text.Strip | dicer.py:132 | `strip()` is no longer than its input and neither starts nor ends with whitespace |
| Text.StripSlice | dicer.py:132 | `strip()` gives a slice of its input with nothing but whitespace before it and after it |
| Text.StripTrailingSpace | dicer.py:132 | whitespace appended to a text does not change what `strip()` gives |
| Text.RemoveTrailingAt | Dicer.py:106 | deleting `p` from `x + p` leaves `x` when a character of `p` that differs from every character before it in `p` is absent from `x` |
| Text.StripKeeps | dicer.py:132 | `strip()` keeps every occurrence of a text without whitespace |
| Text.ContainsIff | dicer.py:130 | `p in s` holds exactly when `p` occurs at some index of `s` |
| Pattern.Groups | dicer.py:59 | the positions found for the `d`, the end of the sides and the end of the modifier meet every condition of the greedy match |
| Pattern.GroupsUnique | dicer.py:59 | those positions are the only ones that meet the conditions |
| Pattern.MatchDiceSound | dicer.py:59 | a match is a prefix of the text and is maximal: no digit follows it, and no sign-and-digit follows when the modifier is absent |
| Pattern.MatchDiceUnique | dicer.py:59 | every well-formed, maximal prefix match is the match `re.match` returns |
| Pattern.MatchDiceFinds | dicer.py:59-61 | digits, a `d` and a digit at the front always match, with the leading digits as the count text |
| Pattern.MatchIgnoresTail | dicer.py:59 | matching the matched span alone gives the same match, so trailing text is ignored |
| Pattern.MatchDiceValid | dicer.py:63-68 | the groups of a match are digit runs, sides non-empty, modifier a sign then digits, so every `int()` succeeds |
| Dice.RollDice | dicer.py:59-79 | no match gives "无效的表达式！"; otherwise `count` draws from the front, each in `[1, sides]`, total = sum + modifier, breakdown = `+`-joined draws plus the modifier text iff the modifier is non-zero; zero sides with at least one die is the `randint(1, 0)` error |
| Dice.BreakdownDecodes | dicer.py:76 | splitting the breakdown on `+` gives one part per draw, each reading back as that draw |
| Dice.CheckSuccess | dicer.py:94-104 | the threshold is the target, its floor half (hard) or its floor fifth (extreme); the check passes iff total <= threshold |
| Dice.HarderIsStricter | dicer.py:93-101 | for a non-negative target, extreme <= hard <= normal thresholds, and passing a harder check passes every easier one |
| Dice.NegativeTargetFloors | Dicer.py:88-92 | `//` floors negative targets: -3 // 2 is -2 |
| Dice.ErrorLineWithout | dicer.py:169-170 | an error line holds no line break unless the text it quotes does |
| Dice.DashFlagsApart | dicer.py:128 | two different dash flags can never overlap in a text |
| Dice.SpacedFlagsApart | Dicer.py:112-115 | the deleted texts `" -h"` and `" -e"` can never overlap |
| EveryFlag.StripOptions | dicer.py:128-132 | the loop over the options dictionary, updated in place, ends with the flags and text of `Options` |
| EveryFlag.GambleIffFlag | dicer.py:128-131 | gamble is set iff `-g` occurs in the expression |
| EveryFlag.FirstTurnKeeps | dicer.py:129-132 | deleting `-g` and trimming keeps every `-h` and `-e` |
| EveryFlag.HardWhenFlagged | dicer.py:128-136 | `-h` anywhere makes the check hard, whatever else is there |
| EveryFlag.ExtremeWhenFlagged | dicer.py:128-136 | `-e` anywhere makes the check hard or extreme, never normal |
| EveryFlag.ExtremeWithoutHard | dicer.py:128-136 | `-e` with no `h` anywhere in the expression makes the check extreme |
| EveryFlag.NormalWithoutLevelFlags | dicer.py:128-136 | with no `h` and no `e` the check is normal, `-g` or not |
| EveryFlag.AppendedFlag | dicer.py:128-136 | a dash-free expression followed by one flag gives that flag's gamble or level, with the flag gone and the expression stripped |
| EveryFlag.HardFromDeletion | dicer.py:128-136 | `--gh` holds no `-h` and still reads as hard, because deleting `-g` leaves `-h` |
| EveryFlag.ExtremeFromDeletion | dicer.py:128-136 | `--ge` holds neither `-h` nor `-e` and still reads as extreme, because deleting `-g` leaves `-e` |
| EveryFlag.UnflaggedUnchanged | dicer.py:128-136 | with no flag the expression passes unchanged and the check is normal without gamble |
| EveryFlag.RestWithout | dicer.py:132 | deleting flags and trimming adds no character |
| SpacedFlag.StripFlags | Dicer.py:104-115 | the reassignments of `expression` and `difficulty` end with the flags and text of `Options` |
| SpacedFlag.GambleRemovalKeeps | Dicer.py:104-106 | deleting `" -g"` keeps every `-h` and `-e` |
| SpacedFlag.HardWhenFlagged | Dicer.py:110-112 | `-h` anywhere makes the check hard |
| SpacedFlag.ExtremeWhenFlagged | Dicer.py:110-115 | `-e` anywhere makes the check hard or extreme, never normal |
| SpacedFlag.UnspacedGambleStays | Dicer.py:104-106 | `-g` without a space before it sets gamble but stays in the text |
| SpacedFlag.ExtremeLeftWithHard | Dicer.py:110-115 | with `-h` present, `" -e"` is not deleted and stays in the dice text |
| SpacedFlag.ExtremeWithoutHard | Dicer.py:104-115 | `-e` with no `h` anywhere in the expression makes the check extreme |
| SpacedFlag.NormalWithoutLevelFlags | Dicer.py:104-115 | with no `h` and no `e` the check is normal, `-g` or not |
| SpacedFlag.AppendedFlag | Dicer.py:104-115 | a dash-free expression followed by one spaced flag gives that flag's gamble or level, with the flag and its space gone and nothing else changed |
| SpacedFlag.HardFromDeletion | Dicer.py:104-112 | `- -gh` holds no `-h` and still reads as hard, because deleting ` -g` leaves `-h` |
| SpacedFlag.ExtremeFromDeletion | Dicer.py:104-115 | `- -ge` holds neither `-h` nor `-e` and still reads as extreme, because deleting ` -g` leaves `-e` |
| SpacedFlag.UnflaggedUnchanged | Dicer.py:104-115 | with no flag the expression passes unchanged and the check is normal without gamble |
| SpacedFlag.RestWithout | Dicer.py:106-115 | deleting flags adds no character |
| Engine.SplitTarget | dicer.py:139-145 | no `/` gives no target and the whole text; a success leaves dice text without `/` |
| Engine.SplitTargetOne | dicer.py:139-141 | exactly one `/`: the integer before it is the target and the text after it the dice text, or the `int()` error |
| Engine.SplitTargetMany | dicer.py:140 | two or more `/` fail with the unpacking error |
| Engine.Conclude | dicer.py:145-167 | the line takes no more draws than the stream holds |
| Engine.EvaluateExpression | dicer.py:123-170 | the method returns the line of `Evaluate` and the stream after the draws it took |
| Engine.OutcomeEnding | dicer.py:155-163 | away from the 1d100 criticals, a check against a target ends in the words of its verdict: pass, gamble lost, or failure |
| Engine.VerdictEnding | dicer.py:145-167 | a successful roll against a target, away from the criticals, ends in `检定通过！` iff the total is within the threshold, in `孤注一掷失败，视为大失败！` iff it is not and gamble is set, and in `检定失败！` iff it is not and gamble is unset |
| Engine.SuccessStart | dicer.py:167 | a successful line starts with a digit or `d`, so it never starts like an error line |
| Engine.ErrorLines | dicer.py:123-170 | the line starts with "错误：" iff the split or the roll failed, and then no draw is taken |
| Engine.ErrorLineStarts | dicer.py:170 | every error line starts with "错误：" |
| Engine.CriticalIgnoresCheck | dicer.py:148-152 | with "1d100" in the dice text, 1 gives "大成功！" and 96 or more gives "大失败！", whatever the target, level and gamble |
| Engine.GambleOnlyOnFailure | dicer.py:155-163 | gamble changes nothing when there is no target or the check passes |
| Engine.LineWithout | dicer.py:123-170 | text without a line break evaluates to a single line |
| Engine.EvaluateWithout | Dicer.py:101-156 | the same for either copy, flags included |
| Commands.QuickDigits | dicer.py:187 | the group of `\.r\s*(\d+)?` is a run of digits |
| Commands.QuickDigitsAt | dicer.py:187 | `.r`, whitespace, then digits ended by neither: the group is those digits |
| Commands.QuickDefault | dicer.py:189-190 | `.r` alone rolls `1d100` |
| Commands.OneDie | dicer.py:190-191 | `1d<n>` is one die of `n` sides with no modifier |
| Commands.QuickRoll | dicer.py:187-197 | a quick roll takes no more draws than the stream holds |
| Commands.QuickRollLine | dicer.py:189-192 | `.r n`, n >= 1: one draw in `[1, n]`, line `"1d<n>: <d>=<d>"`; `.r 0` is the `randint(1, 0)` error line |
| Commands.QuickInvalid | dicer.py:187-197 | a command not starting with `.r` gives "错误：无效的表达式！" |
| Commands.TailStart | dicer.py:219 | backtracking `\s+` finds the longest whitespace run after which `.` accepts |
| Commands.LineFrom | dicer.py:219 | greedy `.+` runs to the first line break or the end |
| Commands.TailLongest | dicer.py:219 | `\s+(.+)` fails iff no place for the group exists; otherwise the group starts at the last such place |
| Commands.TailLine | dicer.py:219 | the group of `\s+(.+)` is non-empty and holds no line break |
| Commands.RepeatExpressionLine | dicer.py:219-230 | the expression of a repeat command is one non-empty line |
| Commands.ManyRoundTrip | dicer.py:219-223 | `.m -<n> <e>` parses to n trials of `e` |
| Commands.TwiceRoundTrip | dicer.py:226-231 | `.d <e>` parses to 2 trials of `e` |
| Commands.ThriceRoundTrip | dicer.py:226-231 | `.t <e>` parses to 3 trials of `e` |
| Commands.RepeatUnknown | dicer.py:219-233 | a command not starting with `.m`, `.d` or `.t` is not a repeat command |
| Commands.Trials | dicer.py:249-252 | n trials print n lines |
| Commands.FitsPrefix | dicer.py:250-251 | a stream enough for n trials is enough for fewer |
| Commands.ExecuteRolls | dicer.py:249-253 | the loop's output is the trials' lines joined by `"\n"`; the stream is left as the trials leave it |
| Commands.TrialsEach | dicer.py:250-252 | line i is `"第 <i+1> 次 -> "` + trial i's line on the stream the i trials before it left |
| Commands.TrialsSplit | dicer.py:253 | trials printing single lines give an output that splits back into exactly those lines |
| Commands.EvaluateStepLine | dicer.py:251 | a trial of an expression without a line break prints one line |
| Commands.RepeatLines | dicer.py:217-236 | a parsed command with count n >= 1 prints exactly n lines, line i starting `"第 <i+1> 次 -> "`, failing trials included |
| Commands.RepeatRoll | dicer.py:217-236 | an unmatched command gives "错误：无效的重复检定指令！" and takes no draws; otherwise the output of `_execute_rolls` |
| Worked.SpacedExtreme | Dicer.py:113-115 | `"50/1d100+2 -e"` reads as extreme without gamble, text `"50/1d100+2"` |
| Worked.MatchExample | Dicer.py:63-72 | `"1d100+2"` is one 100-sided die plus 2 |
| Worked.RollExample | Dicer.py:75-83 | with 15 drawn: rolls [15], total 17, breakdown `"15+2"` |
| Worked.OutcomeExample | Dicer.py:46 | target 50, extreme, total 17 gives `"17>10, 极难检定失败！"` |
| Worked.ExtremeFailureExample | Dicer.py:46 | the docstring's line for `"50/1d100+2 -e"` with 15 drawn |
| Worked.QuickExample | Dicer.py:49 | `.r` with 42 drawn gives `"1d100: 42=42"` and takes one draw |

## Left out

- The interactive loops under `__main__` (dicer.py:256-280, Dicer.py:203-227) are not modelled. They are console input and output.
- The distribution of `random.randint` is left out. Draws are an input stream. A precondition (`DrawsFor`, `DrawsFit`, `QuickFits`, `RepeatFits`) puts each draw in `[1, sides]` and supplies enough of them.
- Python's own exception texts are stand-ins:
  - the tuple-unpacking error;
  - the `int()` failure;
  - `randint(1, 0)`.

  They are close to CPython's wording but not guaranteed. The engine's own messages, "无效的表达式！" and "无效的重复检定指令！", are exact.
- Character classes are ASCII only:
  - `\d` and `int()` take ASCII digits;
  - `\s` and `strip()` take the six ASCII whitespace characters: space, tab, line feed, carriage return, vertical tab and form feed. Python's `\s` and `strip()` also take the ASCII separators `\x1c` to `\x1f`, which the model treats as ordinary characters.

  Python also accepts other Unicode digits and whitespace, and underscores between digits in `int()`.
- Python's limit on the digits of an integer converted to or from text is not modelled. Neither is the memory a huge dice count would take.
- The `expression` parameter of `repeat_roll` is not modelled. It is overwritten before use.
- The docstring examples at Dicer.py:41-43 omit the `", <total>"` suffix that the code at Dicer.py:152-154 appends. The model follows the code.
- `.m -0 <e>` parses to zero trials, so `_execute_rolls` prints the empty text. `Commands.RepeatLines` covers counts of one and more only. With zero trials the join is `""`, while splitting `""` gives one empty part.
- Dice.DrawsFor: the precondition also states that a match's groups are well formed. `Pattern.MatchDiceValid` proves this always holds. It is there so that `RollDice` can read the numbers without unfolding the matcher.
- `Engine.Evaluate` and `Engine.Outcome` are specification functions with no contract of their own. Their behaviour is stated by lemmas:
  - `ErrorLines` and `SuccessStart` tell error lines from result lines;
  - `CriticalIgnoresCheck` covers the 1d100 criticals;
  - `OutcomeEnding` and `VerdictEnding` give the verdict words;
  - `GambleOnlyOnFailure` shows where gamble matters;
  - `LineWithout` shows that every line is a single line.
- Commands.Trials: the trial step is passed as a function value (`EvaluateStep`). The loop of `_execute_rolls` is proved against it. The properties of one trial come from the `Engine` lemmas.
