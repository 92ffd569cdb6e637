# Bob Jack Rossman posting job — a Dafny model of its selection and de-duplication core

The job runs once per schedule trigger. It picks a quote and a screenshot, composites them into a
captioned image and posts the image. Three DynamoDB tables keep a usage count per item:

- one for quotes;
- one for screenshots;
- one for composites, keyed by the MD5 hash of the final image.

The counts steer selection towards less-used items, and they stop an identical composite from
being posted twice.

This project models the decision logic of `src/lambda_function.py`, with the store semantics of
`src/helpers/dynamo_db.py`. Its modules:

- `Errors` (`errors.dfy`): the ways a run can fail. Raised exceptions become `Err` values.
- `Base64` (`base64.dfy`): `_encode_text` and `_decode_text`. These turn quote and screenshot
  strings into the partition values of the usage tables. The codec has three layers:
  - characters ↔ Base64 symbols (a sextet or the pad `=`);
  - symbols ↔ bytes, with arithmetic only;
  - bytes ↔ ASCII text.
- `UsageStore` (`usage_store.dfy`): the three tables as one map from (table, key) to a record.
  - `get_item` answers zero for a missing key.
  - A use upserts one record.
- `Selection` (`selection.dfy`): the best-of-sample policy of `_get_quotes` and
  `_get_screenshots`.
  - The two functions differ only in their table and pool, so one definition (`Select`)
    models both.
  - A method, `SelectLeastUsed`, computes the selection with the source's loops and is proved
    equal to `Select`.
- `Bot` (`bot.dfy`): the app object, as a class. Its fields are the selected values, the
  composite hash, the uniqueness flag, the store, and an event log. The log records the writes
  and the post in the order they happen. The class has:
  - the `create_tweet` uniqueness gate;
  - the `update_db` upsert;
  - `lambda_handler`'s loop.

  `Run` is the loop's specification, and lemmas about `Run` state what a run achieves.

Random draws, the tie-break index, the composite hash and the clock reading are parameters of the
model.

Three behaviours of the code are easy to misread, and the model follows the code in each:

- When the sample holds several never-used items, `_get_quotes` takes the first of them in
  sample order, not a random one (lines 81-86 use `next`). `Select` does the same.
- A unique composite is recorded in all three tables BEFORE it is posted (lines 189-193). A
  failing post would therefore still leave the three counts incremented. `PostEvents` and
  `LambdaHandler` state this order.
- A repeated composite does not end the run: the loop starts a new attempt (line 183,
  `while True`). Each attempt's random choices are a `Round`.

## Model

| member | source | states |
|---|---|---|
| Base64.SextetChar | src/lambda_function.py:44 | every sextet has a character of the standard Base64 alphabet, other than `=`, which reads back as that sextet |
| Base64.SextetCharOfValue | src/lambda_function.py:52 | every alphabet character is the character of its own sextet, so the alphabet is a bijection |
| Base64.CharSymbol | src/lambda_function.py:52 | the strict decoder accepts a character exactly when it is an alphabet character or `=`, and rejects anything else as invalid Base64 |
| Base64.Parse | src/lambda_function.py:52 | the strict decoder reads a string exactly when each of its characters is accepted, one symbol per character |
| Base64.ParseRender | src/lambda_function.py:44-52 | parsing a rendered symbol string gives the symbols back |
| Base64.Symbols | src/lambda_function.py:44 | encoding yields four symbols for every started group of three bytes |
| Base64.SymbolsShape | src/lambda_function.py:44 | padding is exactly the last `(3 - n mod 3) mod 3` symbols |
| Base64.DecodeGroup | src/lambda_function.py:52 | a group of four sextets decodes to three bytes; the strict decoder rejects a pad inside a group that is not the last |
| Base64.DecodeLastGroup | src/lambda_function.py:52 | the strict decoder accepts the final group exactly when its first two symbols are sextets and no `=` is followed by a sextet; it yields three bytes without padding, two with `=`, one with `==` |
| Base64.DecodeSymbols | src/lambda_function.py:52 | the strict decoder accepts only inputs whose length, pads included, is a multiple of four; every failure is invalid Base64 |
| Base64.DecodeSymbolsOfBytes | src/lambda_function.py:44-52 | decoding the symbols of any byte string gives that byte string back |
| Base64.EncodeBytes | src/lambda_function.py:44 | `b64encode` output has length `4 * ceil(n / 3)` |
| Base64.EncodeBytesShape | src/lambda_function.py:44-45 | every output character is `=` or an alphabet character, with `=` only in the trailing padding |
| Base64.DecodeBytes | src/lambda_function.py:52 | every failure of the strict decoder is invalid Base64 |
| Base64.DecodeEncodeBytes | src/lambda_function.py:44-52 | `b64decode(b64encode(b)) == b` for every byte string |
| Base64.AsciiBytes | src/lambda_function.py:43 | `encode('ascii')` keeps the length and maps each character to its code |
| Base64.BytesAscii | src/lambda_function.py:53 | `decode('ascii')` succeeds exactly when every byte is below 128, and then maps each byte to the character with that code |
| Base64.EncodeText | src/lambda_function.py:41-46 | `_encode_text` fails exactly on non-ASCII text; otherwise it returns ASCII padded Base64 of the stated length |
| Base64.DecodeText | src/lambda_function.py:48-54 | `_decode_text` rejects non-ASCII input, fails only with a non-ASCII or invalid-Base64 error, and returns ASCII text |
| Base64.TextRoundTrip | src/lambda_function.py:41-54 | `_decode_text(_encode_text(t)) == t` for every ASCII text `t` |
| Base64.EncodeTextInjective | src/lambda_function.py:41-46 | distinct ASCII texts have distinct partition values |
| UsageStore.GetItem | src/helpers/dynamo_db.py:16-27 | `get_item` returns the requested key, with the stored count, or with zero when no record exists |
| UsageStore.RecordUse | src/lambda_function.py:158-171 | one use sets the key's record to the old count plus one, with the current time, and leaves every other record unchanged |
| UsageStore.RecordUseCounts | src/lambda_function.py:165-171 | after one use, the used key's count is one more than before (one for a first use) and every other count is unchanged |
| UsageStore.UsedHashIsNotUnique | src/lambda_function.py:150-154 | once a composite's use is recorded, the gate no longer lets that hash through |
| UsageStore.IsUniqueIffUnused | src/lambda_function.py:150-154 | the gate passes exactly when the hash has no record or a record of count zero |
| Selection.Sample | src/lambda_function.py:75-79 | the sampling loop yields one item per draw, holding the draw's partition value and count; it fails on an empty pool or on a non-ASCII item |
| Selection.FirstUnused | src/lambda_function.py:81 | `next(...)` finds the first sampled item with count zero, or reports that none has count zero |
| Selection.MinCount | src/lambda_function.py:88-91 | `min(counts)` is a lower bound of the sampled counts and is attained |
| Selection.IndicesWithCount | src/lambda_function.py:91 | the indices collected are, in increasing order, exactly the sample positions with the given count |
| Selection.MinIndices | src/lambda_function.py:91 | the list of minimum positions is non-empty and holds exactly the positions with the minimum count |
| Selection.Choose | src/lambda_function.py:81-98 | the chosen value, once decoded, is ASCII text |
| Selection.Select | src/lambda_function.py:73-98 | a selected quote or screenshot is ASCII text |
| Selection.SamplePrefixError | src/lambda_function.py:75-79 | when the first n draws already fail, sampling all draws fails in the same way: later draws are never reached |
| Selection.SelectNeverUsedFirst | src/lambda_function.py:81-86 | when a sampled item has count zero, the result is the first such item, whatever the tie-break |
| Selection.ChooseMinimal | src/lambda_function.py:81-96 | the chosen position holds a minimal count of the sample, and the result is that item's decoded value |
| Selection.SelectBestOfSample | src/lambda_function.py:73-98 | with a non-empty pool and sample, selection succeeds and returns a sampled item whose count is no larger than any other sampled count |
| Selection.SelectTieReachable | src/lambda_function.py:91-92 | when no sampled item is unused, every sampled item of minimum count is selected by some tie-break |
| Selection.SelectFailures | src/lambda_function.py:75-92 | an empty sample fails in the tie-break's `random.choice` over an empty index list, an empty pool in the first draw's `random.choice`, a non-ASCII item in its encoding |
| Selection.ScenarioNeverUsedWins | src/lambda_function.py:81-86 | with counts a:0, b:5, c:2 and draws b, c, a, the result is a, whatever the tie-break |
| Selection.ScenarioTieBreak | src/lambda_function.py:87-98 | with two tied items of positive count, every tie-break returns one of the two |
| Selection.ScenarioTieBreakReachesBoth | src/lambda_function.py:91-92 | with two tied items of positive count, each of them is returned for some tie-break |
| Selection.SelectLeastUsed | src/lambda_function.py:73-98 | the sampling and choosing loops compute `Select` |
| Selection.SampleItems | src/lambda_function.py:75-79 | the sampling loop computes `Sample`, stopping at the first failing draw |
| Selection.ChooseItem | src/lambda_function.py:81-98 | the never-used branch and the minimum branch together compute `Choose` |
| Selection.FindUnused | src/lambda_function.py:81 | the scan returns the position of the first unused sampled item, or the sample's length when there is none |
| Selection.IndicesOfCount | src/lambda_function.py:91 | the list comprehension's loop computes the positions with the given count |
| Bot.AttemptOf | src/lambda_function.py:184-185 | an attempt's selected text and image are ASCII |
| Bot.Attempts | src/lambda_function.py:183-185 | there is one attempt per round, each selecting from the same store |
| Bot.RunTweetedFirstUnique | src/lambda_function.py:183-195 | a posting run posts the first attempt whose composite is unique; every earlier attempt selected both parts and repeated a composite |
| Bot.RunNoUniqueAllRepeat | src/lambda_function.py:183-187 | a run that runs out of rounds repeated a composite on every attempt |
| Bot.RunFailedInSelection | src/lambda_function.py:183-185 | a failed run failed in the quote or screenshot selection of its last attempt, after only repeating attempts |
| Bot.AfterPostCounts | src/lambda_function.py:189-191 | a post adds exactly one use to the quote, the screenshot and the composite, changes no other count, and leaves the composite no longer unique |
| Bot.App.constructor | src/lambda_function.py:23-38 | the app starts with the given store and no recorded effects |
| Bot.App.GetQuotes | src/lambda_function.py:73-98 | the quote selected is `Select` on the quotes table, and it is kept as the current quote |
| Bot.App.GetScreenshots | src/lambda_function.py:100-123 | the screenshot selected is `Select` on the screenshots table, and it is kept as the current screenshot |
| Bot.App.CreateTweet | src/lambda_function.py:149-154 | the composite hash is stored, and the unique flag is set exactly when the hash's count is zero |
| Bot.App.UpdateDb | src/lambda_function.py:158-171 | the record is upserted under the encoded key (the raw hash for composites): a put of one when the count is zero, otherwise an update to count plus one; non-ASCII values fail with nothing written |
| Bot.App.PostTweet | src/lambda_function.py:173-175 | the post is appended to the effects and the store is unchanged |
| Bot.App.RecordAndPost | src/lambda_function.py:188-193 | the three writes, then the post, happen in this order and yield `AfterPost` |
| Bot.App.PostIfUnique | src/lambda_function.py:186-195 | a unique composite is recorded and posted; a repeated one changes nothing |
| Bot.App.TryRound | src/lambda_function.py:184-195 | one loop iteration behaves as `Step`: only a posting attempt changes the store or the effects |
| Bot.App.LambdaHandler | src/lambda_function.py:183-195 | the handler computes `Run`; it changes the store and the effects only when it posts, and then by exactly the three writes and the post |

## Left out

- Authentication and posting through tweepy (lines 24-26, 173-175): the post is a `Publish` event carrying the composite's hash.
- S3 downloads, the bucket listing and CSV parsing (lines 125-140): the quote and screenshot pools are parameters. The source downloads the CSV again (lines 127-130) and lists the bucket again (line 136) on every pass of the handler's loop (lines 184-185). The model gives every `Round` of `LambdaHandler` the same two pools, so it does not capture the pools changing between attempts.
- The sample sizes of three (lines 131 and 138): the number of draws is whatever the `Round` holds.
- Image compositing with ImageMagick (lines 144-148) and the MD5 hash of the file (lines 57-63): the hash is a function parameter, `compositeHash`, of the selected text and image.
- The clock (lines 66-71): a run takes one time stamp, `now`, as a parameter. The source reads the clock at each write, so its three writes may carry different times.
- `time.sleep(15)` between draws (line 80): it has no effect on the result.
- Randomness: the draws of `random.choice` (lines 77 and 104) and the tie-breaks of lines 92 and 118 are parameters.
- Bot.App.LambdaHandler: the source's `while True` loop is unbounded. The model runs over a finite list of rounds and returns `NoUniqueComposite` when every round repeated a composite, an outcome the source never reaches.
- Base64.DecodeText: the decoder is strict, rejecting characters outside the alphabet, misplaced padding and lengths that are not a multiple of four. Python's `b64decode` without `validate=True` discards non-alphabet characters first. The two agree on every string `_encode_text` produces, which is all the job ever decodes.
- Base64.CharSymbol: rejects characters outside the alphabet, which Python's default `b64decode` discards instead; the reason is the one given for Base64.DecodeText.
- Base64.Parse: fails on any character outside the alphabet, where Python's default `b64decode` drops it (so `"QU JD"` is an error here and `ABC` in Python); same reason as Base64.DecodeText.
- Base64.DecodeGroup: rejects `=` inside a group that is not the last one, where Python's default `b64decode` may accept such input; same reason as Base64.DecodeText.
- Base64.DecodeSymbols: counts stray characters and extra `=` towards the multiple-of-four length, where Python's default `b64decode` ignores them; same reason as Base64.DecodeText.
- Base64.DecodeLastGroup: rejects a final group of four `=`, which Python's default `b64decode` reads as no bytes (so `"QUJD===="` is an error here and `ABC` in Python); same reason as Base64.DecodeText.
- Base64.DecodeBytes: is the strict decoder, so it differs from Python's non-validating `b64decode` on input that `b64encode` never produces; same reason as Base64.DecodeText.
- Exceptions of the store helper (`raise e` in `src/helpers/dynamo_db.py`) and of the AWS SDK: the store never fails in the model.
- The `UpdateExpression` of `update_item` (`src/helpers/dynamo_db.py:42-57`) is taken as writing the new count and time. As written, the expression at line 48 (`set times_used=:r, set updated_on=:s`) repeats the `SET` keyword, which DynamoDB's expression grammar does not allow. Every second or later use of a key, which goes through `update_item`, would then likely raise at line 57 before the post. The model's count-plus-one branch rests on the intended reading. The expression text itself is not part of this model.
- `DynamoHelperWithExamples` in `src/helpers/dynamo_db.py` is not called by the job and is not part of this model.
- The `int(...)` conversion and the separate list of counts (lines 88-90): the counts are read from the sampled items directly, as natural numbers.
- The store the selections read: all attempts of one run read the run's initial store. This is exact, since an attempt that repeats a composite writes nothing.
