# Configuration merge/diff and CloudWatch log helpers, in Dafny

This project models two pieces of the document-processing accelerator's Python
support library and proves properties of them.

* **Configuration merging** (`lib/idp_common_pkg/idp_common/config/merge_utils.py`).
  `deep_update(target, source)` merges a source configuration dict into a target
  dict in place. `get_diff_dict(base, modified)` computes the sparse dict of
  values that are new or changed in `modified`; it never records deletions.
  Configuration values are JSON-like (`Json.JsonValue`). Python's `==` is
  modelled exactly as `Json.PyEq`: numbers compare by value, `True == 1`,
  lists compare element-wise and dicts by keys and values. `deepcopy` becomes
  value semantics. `deep_update` is the class `MergeUtils.ConfigDict`, whose
  method `DeepUpdate` loops over the source keys and recurses on nested dicts.
  It is proved equal to the function `MergeUtils.Merge`. `get_diff_dict` is the
  recursive function `MergeUtils.Diff`. The central law is
  `MergeUtils.DiffRoundTrip`: applying the diff to the base with `deep_update`
  gives back `modified`, in Python's `==` sense, *if and only if* `modified`
  keeps every key of `base` wherever both sides hold dicts.
* **Error-analyzer log helpers**
  (`lib/idp_common_pkg/idp_common/agents/error_analyzer/tools/cloudwatch_tool.py`).
  * `_build_filter_pattern` builds a CloudWatch filter pattern.
  * `_extract_prefix_from_state_machine_arn` derives a log-group prefix from a
    Step Functions ARN.
  * `_should_exclude_log_event` applies the noise-exclusion rules.
  * `extract_error_keywords` counts the twelve error keywords per event and
    keeps the ten most common.

  The Python string operations they use are modelled as written in CPython:

  * `in` and `find`;
  * `split` and `join`, including the left-to-right, non-overlapping split;
  * `replace`, which returns the same as `repl.join(s.split(pat))`;
  * `startswith` and `strip`, with Python's whitespace set;
  * `lower`, mapping ASCII only.

  These live in module `PyStrings`. `extract_error_keywords` is a method with
  the source's nested loops, proved against the functional counter `TallyEvents`.
  `Counter.most_common(10)` is a stable sort by count, largest first, cut to
  ten entries: `heapq.nlargest` returns exactly that.

Files: `wrappers.dfy` (Option), `json.dfy`, `merge_utils.dfy`, `py_strings.dfy`,
`cloudwatch_tool.dfy`.

## Model

| member | source | states |
|---|---|---|
| `Json.PyEq` | lib/idp_common_pkg/idp_common/config/merge_utils.py:65 | Python `==` between two equal values never crosses kinds: `None`, strings, lists and dicts are equal only to values of their own kind, with `bool` and numbers counted as one kind. On `None`, strings and numbers it is plain equality, so `1 == 1.0`; `True == 1` still holds through the `bool`/number case |
| `Json.PyEqRefl` | lib/idp_common_pkg/idp_common/config/merge_utils.py:65 | Python `==` used by the diff is reflexive on every JSON value |
| `Json.PyEqSym` | lib/idp_common_pkg/idp_common/config/merge_utils.py:65 | Python `==` is symmetric, so `value != base[key]` does not depend on the order of comparison |
| `MergeUtils.Merge` | lib/idp_common_pkg/idp_common/config/merge_utils.py:26-31 | the merged key set is the union of target and source keys; keys absent from the source keep their old values; a source value that does not meet a dict on both sides replaces the target value wholesale: a dict replaced by a scalar, a scalar by a dict, a list by a list; where both are dicts the result is a dict holding the union of the nested keys |
| `MergeUtils.ConfigDict.DeepUpdate` | lib/idp_common_pkg/idp_common/config/merge_utils.py:12-31 | updates the dict in place, key by key, recursing into nested dicts; its new contents are `Merge(old contents, source)`, whatever order the keys are visited in; it returns the very object it was given |
| `MergeUtils.MergeSelf` | lib/idp_common_pkg/idp_common/config/merge_utils.py:26-31 | merging a dict into itself leaves it unchanged |
| `MergeUtils.MergeIdempotent` | lib/idp_common_pkg/idp_common/config/merge_utils.py:26-31 | applying the same source twice gives the same dict as applying it once |
| `MergeUtils.Diff` | lib/idp_common_pkg/idp_common/config/merge_utils.py:53-72 | every key of the diff is a key of `modified`, so keys found only in `base` are never emitted; a key missing from `base` is copied with its whole value; a non-dict value is emitted, whole, exactly when it differs (Python `!=`) from the base value; a nested diff produced by recursion is never empty |
| `MergeUtils.ApplyDiffNested` | lib/idp_common_pkg/idp_common/config/merge_utils.py:60-64 | where both sides hold dicts, applying the diff leaves under the key the nested base updated with the nested diff; a dropped empty nested diff changes nothing |
| `MergeUtils.ApplyDiffFlat` | lib/idp_common_pkg/idp_common/config/merge_utils.py:57-59 | where the two sides do not both hold dicts, applying the diff leaves a value equal to the modified one, whether the key was new, changed or unchanged |
| `MergeUtils.DiffOfEqualIsEmpty` | lib/idp_common_pkg/idp_common/config/merge_utils.py:53-72 | a `modified` dict equal to `base` by Python `==` yields the empty diff |
| `MergeUtils.DiffOfSelfIsEmpty` | lib/idp_common_pkg/idp_common/config/merge_utils.py:53-72 | `get_diff_dict(d, d)` is `{}` for every dict `d` |
| `MergeUtils.DiffRoundTrip` | lib/idp_common_pkg/idp_common/config/merge_utils.py:34-72 | `deep_update(copy(base), get_diff_dict(base, modified)) == modified` holds if and only if `modified` keeps every key of `base`, recursively wherever both hold dicts, because deletions are not tracked |
| `PyStrings.FindFrom` | lib/idp_common_pkg/idp_common/agents/error_analyzer/tools/cloudwatch_tool.py:875 | the search returns the first index at or after the start where the pattern occurs, and reports none exactly when there is no such index |
| `PyStrings.FindIffContains` | lib/idp_common_pkg/idp_common/agents/error_analyzer/tools/cloudwatch_tool.py:874 | `sub in s` holds exactly when the search finds `sub` |
| `PyStrings.Split` | lib/idp_common_pkg/idp_common/agents/error_analyzer/tools/cloudwatch_tool.py:875 | a split with a non-empty separator has at least one piece and at most one more piece than the string has characters |
| `PyStrings.SplitPieces` | lib/idp_common_pkg/idp_common/agents/error_analyzer/tools/cloudwatch_tool.py:878 | no piece of a split contains the separator; there is a single piece exactly when the separator does not occur |
| `PyStrings.JoinSplit` | lib/idp_common_pkg/idp_common/agents/error_analyzer/tools/cloudwatch_tool.py:878-880 | joining the pieces of a split with the separator gives the string back |
| `PyStrings.Join` | lib/idp_common_pkg/idp_common/agents/error_analyzer/tools/cloudwatch_tool.py:880 | `sep.join(parts)` is `""` for no pieces; it starts with the first piece, and with the first piece followed by `sep` once there are two or more |
| `PyStrings.SplitLast` | lib/idp_common_pkg/idp_common/agents/error_analyzer/tools/cloudwatch_tool.py:875 | a string containing the separator is its pieces but the last, joined, then the separator, then a last piece free of the separator |
| `PyStrings.SplitLastPiece` | lib/idp_common_pkg/idp_common/agents/error_analyzer/tools/cloudwatch_tool.py:875 | `s.split(sep)[-1]` is all of `s` when `sep` does not occur. Otherwise it is a suffix of `s`, directly preceded by `sep` and free of it |
| `PyStrings.Replace` | lib/idp_common_pkg/idp_common/agents/error_analyzer/tools/cloudwatch_tool.py:877 | `s.replace(pat, repl)` returns `s` unchanged when `pat` does not occur. With a replacement no longer than the pattern, the result is at most as long as `s`, and shorter by at least the length difference once `pat` occurs |
| `PyStrings.ReplaceCharIsDrop` | lib/idp_common_pkg/idp_common/agents/error_analyzer/tools/cloudwatch_tool.py:804 | `s.replace(":", "")` deletes every `:` and keeps every other character in order |
| `PyStrings.ContainsChar` | lib/idp_common_pkg/idp_common/agents/error_analyzer/tools/cloudwatch_tool.py:878 | a one-character substring test is a character-membership test |
| `PyStrings.DropChar` | lib/idp_common_pkg/idp_common/agents/error_analyzer/tools/cloudwatch_tool.py:804 | deleting a character leaves no occurrence of it and keeps every other character present |
| `PyStrings.StripStart` | lib/idp_common_pkg/idp_common/agents/error_analyzer/tools/cloudwatch_tool.py:960 | `strip` removes exactly the leading whitespace: the result is a suffix, everything cut is whitespace, and the result does not start with whitespace |
| `PyStrings.StripEnd` | lib/idp_common_pkg/idp_common/agents/error_analyzer/tools/cloudwatch_tool.py:960 | `strip` removes exactly the trailing whitespace: the result is a prefix, everything cut is whitespace, and the result does not end with whitespace |
| `PyStrings.Strip` | lib/idp_common_pkg/idp_common/agents/error_analyzer/tools/cloudwatch_tool.py:960 | `s.strip()` is a substring of `s` that neither starts nor ends with whitespace; it is empty exactly when every character of `s` is whitespace |
| `PyStrings.Lower` | lib/idp_common_pkg/idp_common/agents/error_analyzer/tools/cloudwatch_tool.py:671 | `s.lower()` keeps the length and leaves no upper-case ASCII letter. Each upper-case ASCII letter becomes the letter 32 code points above it, and every other character is kept |
| `PyStrings.LowerIdempotent` | lib/idp_common_pkg/idp_common/agents/error_analyzer/tools/cloudwatch_tool.py:671 | lower-casing an already lower-cased message changes nothing |
| `CloudWatchTool.Sanitize` | lib/idp_common_pkg/idp_common/agents/error_analyzer/tools/cloudwatch_tool.py:804 | the sanitized base pattern is the base pattern with every `:` deleted |
| `CloudWatchTool.BuildFilterPattern` | lib/idp_common_pkg/idp_common/agents/error_analyzer/tools/cloudwatch_tool.py:791-816 | with a non-empty request ID and a non-empty base the result is `"[" + rid + ", " + base without ':' + "]"`; with only a request ID it is the ID verbatim; without a request ID (`None` or `""`) it is the base with every `:` removed, which holds no `:` and is `""` for an empty base |
| `CloudWatchTool.ExtractPrefixFromStateMachineArn` | lib/idp_common_pkg/idp_common/agents/error_analyzer/tools/cloudwatch_tool.py:874-881 | an ARN without `:stateMachine:` yields `""` |
| `CloudWatchTool.StateMachineName` | lib/idp_common_pkg/idp_common/agents/error_analyzer/tools/cloudwatch_tool.py:875 | the state-machine name is the whole ARN when `:stateMachine:` is absent. Otherwise it is a suffix of the ARN, preceded directly by `:stateMachine:`, and holds no further `:stateMachine:` |
| `CloudWatchTool.PrefixOfWorkflowName` | lib/idp_common_pkg/idp_common/agents/error_analyzer/tools/cloudwatch_tool.py:876-877 | a name containing `-DocumentProcessingWorkflow` yields the name with every occurrence removed, and so is shorter by at least that marker's length |
| `CloudWatchTool.PrefixOfOtherName` | lib/idp_common_pkg/idp_common/agents/error_analyzer/tools/cloudwatch_tool.py:878-881 | any other name yields `""` when it has no `-`; otherwise it yields the part before its last `-` |
| `CloudWatchTool.ShouldExcludeLogEvent` | lib/idp_common_pkg/idp_common/agents/error_analyzer/tools/cloudwatch_tool.py:939-988 | a message is excluded if and only if one of these holds: it is longer than 1000 characters; it contains one of the seven excluded fragments; or the filter pattern is one of the six error patterns and the stripped message starts with `[INFO]`, `INIT_START`, `START`, `END` or `REPORT`; any other message is kept |
| `CloudWatchTool.ExclusionIgnoresOtherPatterns` | lib/idp_common_pkg/idp_common/agents/error_analyzer/tools/cloudwatch_tool.py:952-967 | for filter patterns outside the six error patterns the pattern makes no difference to the verdict |
| `CloudWatchTool.ErrorPatternsDropMore` | lib/idp_common_pkg/idp_common/agents/error_analyzer/tools/cloudwatch_tool.py:952-988 | a message excluded under any filter pattern is also excluded under each of the six error patterns |
| `CloudWatchTool.Hits` | lib/idp_common_pkg/idp_common/agents/error_analyzer/tools/cloudwatch_tool.py:670-674 | the number of events mentioning a keyword is at most the number of events |
| `CloudWatchTool.Bump` | lib/idp_common_pkg/idp_common/agents/error_analyzer/tools/cloudwatch_tool.py:674 | `counter[k] += 1` adds `k` to the keys and nothing else; the counter grows by one item exactly when `k` was new |
| `CloudWatchTool.BumpCounts` | lib/idp_common_pkg/idp_common/agents/error_analyzer/tools/cloudwatch_tool.py:674 | `counter[k] += 1` raises the count of `k` by one, leaves all other counts unchanged, and keeps keys distinct and counts positive |
| `CloudWatchTool.TallyMessage` | lib/idp_common_pkg/idp_common/agents/error_analyzer/tools/cloudwatch_tool.py:671-674 | after the inner loop, the counter's keys are the old keys plus exactly the keywords the lower-cased message contains |
| `CloudWatchTool.TallyMessageCounts` | lib/idp_common_pkg/idp_common/agents/error_analyzer/tools/cloudwatch_tool.py:671-674 | the inner loop raises by exactly one the count of every keyword the lower-cased message contains and leaves the other counts unchanged |
| `CloudWatchTool.TallyEvents` | lib/idp_common_pkg/idp_common/agents/error_analyzer/tools/cloudwatch_tool.py:668-674 | after the loops, the counter's keys are exactly the keywords that some event's lower-cased message contains |
| `CloudWatchTool.TallyEventsCounts` | lib/idp_common_pkg/idp_common/agents/error_analyzer/tools/cloudwatch_tool.py:668-674 | after the loops, the counter has distinct keys and positive counts, and the count of each keyword is the number of events whose lower-cased message contains it |
| `CloudWatchTool.InsertByCount` | lib/idp_common_pkg/idp_common/agents/error_analyzer/tools/cloudwatch_tool.py:676 | inserting into the ordering adds exactly the one entry |
| `CloudWatchTool.SortByCount` | lib/idp_common_pkg/idp_common/agents/error_analyzer/tools/cloudwatch_tool.py:676 | the ordering used by `most_common` is a permutation of the counter's items |
| `CloudWatchTool.SortSorted` | lib/idp_common_pkg/idp_common/agents/error_analyzer/tools/cloudwatch_tool.py:676 | the ordering used by `most_common` has counts in non-increasing order |
| `CloudWatchTool.InsertStable` | lib/idp_common_pkg/idp_common/agents/error_analyzer/tools/cloudwatch_tool.py:676 | inserting an entry by count places it before every entry of its own count and leaves the order of all entries of each count otherwise unchanged |
| `CloudWatchTool.SortStable` | lib/idp_common_pkg/idp_common/agents/error_analyzer/tools/cloudwatch_tool.py:676 | the ordering used by `most_common` is stable: the entries of each count appear in the order the counter first saw their keys |
| `CloudWatchTool.MostCommon` | lib/idp_common_pkg/idp_common/agents/error_analyzer/tools/cloudwatch_tool.py:676 | `most_common(n)` returns `min(n, number of items)` entries |
| `CloudWatchTool.MostCommonTop` | lib/idp_common_pkg/idp_common/agents/error_analyzer/tools/cloudwatch_tool.py:676 | `most_common(n)` returns entries of the counter sorted by count, and every entry it leaves out counts no more than any entry it keeps |
| `CloudWatchTool.MostCommonStable` | lib/idp_common_pkg/idp_common/agents/error_analyzer/tools/cloudwatch_tool.py:676 | among keywords tied on a count, `most_common(n)` keeps the ones the counter saw first: the kept entries of each count are a prefix, in order, of the counter's entries of that count |
| `CloudWatchTool.MostCommonEntries` | lib/idp_common_pkg/idp_common/agents/error_analyzer/tools/cloudwatch_tool.py:653-676 | every returned key is one of the 12 listed keywords; its count is the number of events mentioning it, between 1 and the number of events |
| `CloudWatchTool.MostCommonDistinct` | lib/idp_common_pkg/idp_common/agents/error_analyzer/tools/cloudwatch_tool.py:676 | the returned keys are pairwise distinct |
| `CloudWatchTool.MostCommonLeavesOutLess` | lib/idp_common_pkg/idp_common/agents/error_analyzer/tools/cloudwatch_tool.py:676 | a keyword left out is mentioned by no more events than any returned keyword |
| `CloudWatchTool.MostCommonShortIsComplete` | lib/idp_common_pkg/idp_common/agents/error_analyzer/tools/cloudwatch_tool.py:676 | when fewer than ten entries are returned, every keyword mentioned by some event is among them |
| `CloudWatchTool.ExtractErrorKeywords` | lib/idp_common_pkg/idp_common/agents/error_analyzer/tools/cloudwatch_tool.py:643-676 | the nested loops compute the counter exactly. The method returns its `most_common(10)`: at most 10 entries, keys among the 12 keywords and pairwise distinct, each count the number of mentioning events (at least 1, at most the number of events), sorted by count, no left-out keyword counting more than a kept one, and all mentioned keywords present when fewer than 10 are returned |

## Left out

- The AWS-calling parts of `cloudwatch_tool.py` are not part of this model: `cloudwatch_document_logs`, `cloudwatch_logs`, `_search_cloudwatch_logs`, `_get_cloudwatch_log_groups` and `_get_log_group_prefix`. They consist of boto3 calls, environment lookups, logging and clock-based time windows.
- Logging (`logger.debug`) inside `_build_filter_pattern` is an effect only and is not modelled.
- `LogEvent`'s Pydantic timestamp conversion (`models.py`) is not modelled; `CloudWatchTool.LogEvent` holds the three string fields as given.
- `PyStrings.Lower`: maps only ASCII `A`-`Z`; Python's full Unicode `str.lower()` is not modelled. Among non-ASCII characters only the Kelvin sign (to `k`) and capital I with dot above (to `i` plus a combining dot) lower-case to ASCII letters. No keyword contains `k`, and none has an `i` that could be followed by a combining dot, so the keyword counts are the same either way.
- Python's `split` raises `ValueError` on an empty separator, and `replace` with an empty pattern inserts the replacement between characters. `PyStrings.Split` and `PyStrings.Replace` require a non-empty pattern instead, since every call in the source passes a non-empty constant.
- Object identity of nested dicts: Python's `deep_update` mutates a nested target dict object in place, visible through any other reference to it. `ConfigDict.DeepUpdate` writes back a merged value instead, so aliasing is not captured.
- The visiting order of `source.items()` is not modelled: `DeepUpdate` picks the remaining keys in any order, and its postcondition holds for every order.
- Floating-point details: `Json.Num` holds exact reals, so NaN (which Python treats as unequal to itself) and rounding are not represented. Python compares int and float by value, and the model matches that.
- `Counter.most_common` without an argument and the ordering of the returned dict beyond what `MostCommon` fixes play no role here: the source always passes 10.
