# sejda core: output delivery, file naming and the task lifecycle

This project models, in Dafny, the parts of the sejda PDF toolkit that move
a task's results to their destination, and the code around them.

- **Output delivery.** `OutputWriterHelper.executeCopyAndDelete` sends the temporary files a task produced to one file, to a directory, or as entries of a zip stream. It deletes each temporary file once it has been copied.
- **The output writer.** `MultipleOutputWriter` collects those temporary files by output name and flushes them in one go.
- **Output names.** `NameGenerator` builds output file names from a template. Its implementation is not part of this model, so its behaviour is taken from `NameGeneratorTest`.
- **The repair task.** `RepairTask` is the per-source loop. It checks for cancellation, counts steps, handles a source with no recoverable page leniently or strictly, registers one output per source and flushes once.
- **The execution service.** Its test fixes the order validate → before → execute → after.
- **Value types and a transformer.** `FileOrDirectoryTaskOutput` and `InsertPageOperation` are modelled as value types with their `equals`/`hashCode`. The alternate-mix command-line transformer is modelled as a function.

How things are represented:

- **The file system** is a map from paths to files (with byte content) or directories. The `Env` record says which paths cannot be read, written, deleted or made as directories.
- **`File.delete` and `FileUtils.copyFile`** are functions over that map and methods of a `Disk` object.
- **The zip stream** is a sequence of (name, content) entries plus a `closed` flag, held by a `ZipSink` object.
- **A `Map<String, File>`** is a sequence of entries in the map's iteration order. Java does not specify that order, so every lemma holds for all orders.
- **Operations that change state in the source** are methods. Each is proved equal to a specification function (`CopyFileOn`, `DirectoryLoop`, `StreamLoop`, `ExecuteOn`, `Iterate`, `ServiceCalls`). The properties are then proved about those functions.
- **PDF work is left uninterpreted.** For each source, `RepairTask` is told whether it opens, how many pages survive the rebuild and whether saving works.
- **Java `int` arithmetic** in the hash codes is written out as wrap-around modulo 2^32.

## Model

| member | source | states |
|---|---|---|
| FileSystem.Deleted | sejda-core/src/main/java/org/sejda/core/support/io/OutputWriterHelper.java:189-193 | File.delete removes a file, or a directory with nothing below it, unless the file system refuses. A missing path or a directory that still holds something stays. No other path changes. |
| FileSystem.Copied | sejda-core/src/main/java/org/sejda/core/support/io/OutputWriterHelper.java:149-153 | once the input is an existing file other than the output, FileUtils.copyFile makes the parent directories, and they stay whether or not the copy then throws. On success the output holds the input's content; on failure the output is as it was. Existing paths other than the output keep their content, and an input that fails the first checks changes nothing. |
| FileSystem.Mkdirs | sejda-core/src/main/java/org/sejda/core/support/io/OutputWriterHelper.java:151 | the parent directories FileUtils.copyFile makes: the missing ancestors of the output, as directories, from the top down to the first one that is a file or cannot be made; nothing present changes, and when the whole way can be made every ancestor is there |
| FileSystem.CopyStarts | sejda-core/src/main/java/org/sejda/core/support/io/OutputWriterHelper.java:151 | the checks FileUtils.copyFile makes before it touches the disk: the source exists and is a file, and it is not the target |
| FileSystem.ParentsReady | sejda-core/src/main/java/org/sejda/core/support/io/OutputWriterHelper.java:151 | the parent mkdirs inside FileUtils.copyFile can succeed: no directory on the way to the target is a file, and each missing one can be made |
| FileSystem.CopySucceeds | sejda-core/src/main/java/org/sejda/core/support/io/OutputWriterHelper.java:151 | FileUtils.copyFile completes: the first checks pass, the parents can be made, the target is not a directory and can be written, and the source can be read |
| FileSystem.ChildInjective | sejda-core/src/main/java/org/sejda/core/support/io/OutputWriterHelper.java:129 | with single-component names compared exactly, new File(dir, name) gives the same path for two names exactly when the names are equal. This is a modelling assumption (see "Left out"). |
| FileSystem.Disk.Delete | sejda-core/src/main/java/org/sejda/core/support/io/OutputWriterHelper.java:189-193 | File.delete changes the disk as Deleted says and returns true exactly when the file went away |
| FileSystem.Disk.Copy | sejda-core/src/main/java/org/sejda/core/support/io/OutputWriterHelper.java:151 | FileUtils.copyFile changes the disk as Copied says and reports whether it threw |
| Text.IsWhitespace | sejda-core/src/main/java/org/sejda/core/support/io/OutputWriterHelper.java:125 | Java's Character.isWhitespace, the test StringUtils.isBlank applies to each character |
| Text.IsBlank | sejda-core/src/main/java/org/sejda/core/support/io/OutputWriterHelper.java:125 | StringUtils.isBlank on an entry's key, here and at line 170: the key is empty or only whitespace |
| OutputWriterHelper.DeleteQuietly | sejda-core/src/main/java/org/sejda/core/support/io/OutputWriterHelper.java:189-193 | delete never fails: the disk becomes Deleted(old disk, file), and a refused delete is only logged |
| OutputWriterHelper.CopyFile | sejda-core/src/main/java/org/sejda/core/support/io/OutputWriterHelper.java:144-157 | copyFile changes the disk and reports the outcome exactly as CopyFileOn (refuse, copy, delete in finally) |
| OutputWriterHelper.CopyToFile | sejda-core/src/main/java/org/sejda/core/support/io/OutputWriterHelper.java:91-104 | copyToFile behaves exactly as CopyToFileOn: an existing non-file target and a map size other than 1 fail, otherwise its one entry goes through copyFile |
| OutputWriterHelper.CopyToDirectory | sejda-core/src/main/java/org/sejda/core/support/io/OutputWriterHelper.java:115-131 | copyToDirectory behaves exactly as CopyToDirectoryOn: the isDirectory check, the mkdirs check as written, then the loop |
| OutputWriterHelper.CopyEntries | sejda-core/src/main/java/org/sejda/core/support/io/OutputWriterHelper.java:124-130 | the loop of copyToDirectory behaves exactly as DirectoryLoop: stop at a blank name or the first failing copy |
| OutputWriterHelper.CopyToStream | sejda-core/src/main/java/org/sejda/core/support/io/OutputWriterHelper.java:166-187 | copyToStream changes the disk and the zip stream exactly as CopyToStreamOn |
| OutputWriterHelper.ExecuteCopyAndDelete | sejda-core/src/main/java/org/sejda/core/support/io/OutputWriterHelper.java:66-80 | executeCopyAndDelete changes the disk and the stream and reports the outcome exactly as ExecuteOn: a null destination fails, a stream goes to the zip path, a file to the single-file path, anything else to the directory path |
| OutputWriterHelper.CopyFileOn | sejda-core/src/main/java/org/sejda/core/support/io/OutputWriterHelper.java:144-157 | copyFile on the disk: an existing output without overwrite is refused and nothing changes; otherwise FileUtils.copyFile changes the disk as Copied says, the input is then deleted in the finally, and the call fails with CopyFailed exactly when the copy threw |
| OutputWriterHelper.CopyToFileOn | sejda-core/src/main/java/org/sejda/core/support/io/OutputWriterHelper.java:91-104 | copyToFile: an existing target that is not a file fails with NotAFile, then a map that does not hold exactly one entry fails with WrongMapSize, both before the disk changes; otherwise that one entry goes through copyFile |
| OutputWriterHelper.DirectoryLoop | sejda-core/src/main/java/org/sejda/core/support/io/OutputWriterHelper.java:124-130 | the loop of copyToDirectory, in the map's iteration order: a blank key fails with NoOutputName and leaves its entry alone; each other entry goes through copyFile to new File(dir, key); the first failure ends the loop |
| OutputWriterHelper.CopyToDirectoryOn | sejda-core/src/main/java/org/sejda/core/support/io/OutputWriterHelper.java:115-131 | copyToDirectory: a target that is not a directory fails with NotADirectory before anything changes; then the mkdirs branch at line 121, as written; then the loop |
| OutputWriterHelper.StreamLoop | sejda-core/src/main/java/org/sejda/core/support/io/OutputWriterHelper.java:168-185 | the loop of copyToStream: a blank key fails before the try; otherwise the temporary file becomes a new zip entry named by the key, and in the finally it is deleted whether or not that worked; an unreadable file or a closed stream fails with ZipCopyFailed |
| OutputWriterHelper.CopyToStreamOn | sejda-core/src/main/java/org/sejda/core/support/io/OutputWriterHelper.java:166-187 | copyToStream: the loop, then closeQuietly on the zip stream only when the loop completed |
| OutputWriterHelper.ExecuteOn | sejda-core/src/main/java/org/sejda/core/support/io/OutputWriterHelper.java:66-80 | executeCopyAndDelete: a null destination fails with DestinationNotSet and changes nothing; a stream, file or directory destination goes to copyToStream, copyToFile or copyToDirectory, with the destination's overwrite flag |
| OutputWriterProperties.CopyFileOutcome | sejda-core/src/main/java/org/sejda/core/support/io/OutputWriterHelper.java:144-157 | copyFile succeeds iff overwrite is allowed or the output is absent, and the copy works. The copy fails when a file stands where a parent directory should be. A refusal changes nothing, the input included. Once a copy is attempted, the input is deleted whatever happens, unless it is a directory that holds something. On success the output holds the input's content. The only other paths that change are missing parent directories of the output, which become directories, whether or not the copy succeeds. |
| OutputWriterProperties.RejectedDestinationTouchesNothing | sejda-core/src/main/java/org/sejda/core/support/io/OutputWriterHelper.java:66-123 | a null destination, a file destination that exists but is not a file or receives other than one entry, and a directory destination that is not a directory all fail without changing any file or the stream, so every temporary file survives |
| OutputWriterProperties.MkdirsUnreachable | sejda-core/src/main/java/org/sejda/core/support/io/OutputWriterHelper.java:117-123 | copyToDirectory is the isDirectory check followed by the loop; its mkdirs failure can never be reported |
| OutputWriterProperties.DirectoryLoopErrors | sejda-core/src/main/java/org/sejda/core/support/io/OutputWriterHelper.java:124-130 | the directory loop fails only for a missing output name, a refused overwrite or a failed copy |
| OutputWriterProperties.DirectoryLoopSplit | sejda-core/src/main/java/org/sejda/core/support/io/OutputWriterHelper.java:124-130 | the loop over a + b is the loop over a, then, if that completed, the loop over b: entries already processed stay processed |
| OutputWriterProperties.DirectoryBlankAborts | sejda-core/src/main/java/org/sejda/core/support/io/OutputWriterHelper.java:125-128 | an entry with a blank name ends the loop with NoOutputName; the entries before it stay copied and deleted, it and those after it are left alone |
| OutputWriterProperties.DirectoryLoopFrame | sejda-core/src/main/java/org/sejda/core/support/io/OutputWriterHelper.java:124-130 | the loop changes no path other than the entries' temporary files, their targets in the directory, and the missing directories on the way to it, which it makes |
| OutputWriterProperties.DirectoryFrame | sejda-core/src/main/java/org/sejda/core/support/io/OutputWriterHelper.java:124-130 | the same frame, for all untouched paths at once |
| OutputWriterProperties.EntryCopies | sejda-core/src/main/java/org/sejda/core/support/io/OutputWriterHelper.java:129 | an entry that can be delivered to a directory with no file on the way to it is copied by FileUtils.copyFile |
| OutputWriterProperties.CopyMakesParents | sejda-core/src/main/java/org/sejda/core/support/io/OutputWriterHelper.java:144-157 | when the input is a file other than the output and the way to the output can be made, every directory on that way exists after copyFile, even when it then throws on an unreadable input or an unwritable output |
| OutputWriterProperties.DeliverableRest | sejda-core/src/main/java/org/sejda/core/support/io/OutputWriterHelper.java:124-130 | the first entry of a deliverable directory loop is copied: its target holds its temporary file's content, the temporary file is gone unless undeletable, and the remaining entries can still be delivered |
| OutputWriterProperties.FirstKept | sejda-core/src/main/java/org/sejda/core/support/io/OutputWriterHelper.java:124-130 | the entries after the first leave its target and its temporary file as they were |
| OutputWriterProperties.ReadyKept | sejda-core/src/main/java/org/sejda/core/support/io/OutputWriterHelper.java:129 | copying one entry into the directory leaves the way to it free of files and its missing directories makeable |
| OutputWriterProperties.DirectoryDelivers | sejda-core/src/main/java/org/sejda/core/support/io/OutputWriterHelper.java:124-130 | when every entry can be delivered, the loop completes, dir/name holds the content of each entry's temporary file, and each temporary file is gone unless it cannot be deleted |
| OutputWriterProperties.StreamLoopSplit | sejda-core/src/main/java/org/sejda/core/support/io/OutputWriterHelper.java:168-185 | the zip loop over a + b is the loop over a, then, if that completed, the loop over b from the state a left |
| OutputWriterProperties.StreamBlankAborts | sejda-core/src/main/java/org/sejda/core/support/io/OutputWriterHelper.java:170-173 | a blank name ends the zip loop before its temporary file is opened or deleted; the entries before it are already written and deleted |
| OutputWriterProperties.StreamLoopOnlyDeletes | sejda-core/src/main/java/org/sejda/core/support/io/OutputWriterHelper.java:168-185 | the zip loop only deletes files: every path left holds what it held |
| OutputWriterProperties.StreamTempDeleted | sejda-core/src/main/java/org/sejda/core/support/io/OutputWriterHelper.java:181-184 | an entry that the loop reaches with a name has its temporary file deleted in the finally block, whether or not writing it failed. An empty directory in its place, which FileInputStream refuses, is deleted too. |
| OutputWriterProperties.StreamLoopArchive | sejda-core/src/main/java/org/sejda/core/support/io/OutputWriterHelper.java:168-185 | the zip loop only appends entries, never writes to a closed stream and never closes an open one |
| OutputWriterProperties.StreamClosedOnlyWhenDone | sejda-core/src/main/java/org/sejda/core/support/io/OutputWriterHelper.java:186 | the zip stream ends up closed exactly when the loop completed (or it was closed already); the entries written before a failure stay |
| OutputWriterProperties.StreamLoopDelivers | sejda-core/src/main/java/org/sejda/core/support/io/OutputWriterHelper.java:168-185 | when every entry can be written, the loop appends one zip entry per entry, in order, named by its key and holding its file's content, and deletes every temporary file the file system lets go of |
| OutputWriterProperties.StreamDelivers | sejda-core/src/main/java/org/sejda/core/support/io/OutputWriterHelper.java:166-187 | copyToStream then closes the zip: the archive is the old entries followed by all the new ones, closed |
| MultipleOutputWriter.DistinctNamesCount | sejda-core/src/main/java/org/sejda/core/support/io/MultipleOutputWriter.java:53 | a sequence of entries with distinct names has as many names as entries |
| MultipleOutputWriter.EnumerationSize | sejda-core/src/main/java/org/sejda/core/support/io/MultipleOutputWriter.java:53 | an iteration order of the collection visits exactly as many entries as the map holds |
| MultipleOutputWriter.EnumerationCons | sejda-core/src/main/java/org/sejda/core/support/io/MultipleOutputWriter.java:53 | one entry followed by an order of the rest of the map is an order of the map |
| MultipleOutputWriter.EnumerationExists | sejda-core/src/main/java/org/sejda/core/support/io/MultipleOutputWriter.java:53 | every collection has an iteration order, so a flush can always be made |
| MultipleOutputWriter.CollectedDistinct | sejda-core/src/main/java/org/sejda/core/support/io/MultipleOutputWriter.java:55-60 | outputs added under distinct names are all kept with their files, the entries already there are kept, and nothing else appears |
| MultipleOutputWriter.AddedInOrder | sejda-core/src/main/java/org/sejda/core/support/io/MultipleOutputWriter.java:27-35 | after adding outputs with distinct names to an empty writer, the order they were added in is an iteration order of the collection |
| MultipleOutputWriter.OutputWriter.constructor | sejda-core/src/main/java/org/sejda/core/support/io/MultipleOutputWriter.java:27-35 | a new writer holds no outputs |
| MultipleOutputWriter.OutputWriter.AddOutput | sejda-core/src/main/java/org/sejda/core/support/io/MultipleOutputWriter.java:55-60 | addOutput puts the file into the collection under its name |
| MultipleOutputWriter.OutputWriter.FlushOutputs | sejda-core/src/main/java/org/sejda/core/support/io/MultipleOutputWriter.java:43-53 | flushOutputs moves every pending file to the output in an iteration order of the collection, with the given overwrite policy and the outcome of executeCopyAndDelete; afterwards the collection is empty |
| NameGenerator.MatchTokenText | sejda-core/src/test/java/org/sejda/core/support/prefix/NameGeneratorTest.java:46-52 | scanning a written token ([BASENAME], [TEXT], [CURRENTPAGE###], [FILENUMBER###]) finds that token, with its padding width |
| NameGenerator.HasTokenOf | sejda-core/src/test/java/org/sejda/core/support/prefix/NameGeneratorTest.java:121-133 | a token anywhere in a template, at the start, in the middle or at the end, is found |
| NameGenerator.HasPageTokenOf | sejda-core/src/test/java/org/sejda/core/support/prefix/NameGeneratorTest.java:114-119 | a [CURRENTPAGE...] token anywhere in a template is found, so the page is not prefixed again |
| NameGenerator.NoTokenWithoutBracket | sejda-core/src/test/java/org/sejda/core/support/prefix/NameGeneratorTest.java:54-69 | a template without '[' holds no token |
| NameGenerator.BaseName | sejda-core/src/test/java/org/sejda/core/support/prefix/NameGeneratorTest.java:121-126 | the base name has no directory separators |
| NameGenerator.BaseNameOfPlain | sejda-core/src/test/java/org/sejda/core/support/prefix/NameGeneratorTest.java:121-133 | a plain name without directories or extension is its own base name |
| NameGenerator.SubstituteNoToken | sejda-core/src/test/java/org/sejda/core/support/prefix/NameGeneratorTest.java:54-60 | text without any token is copied unchanged |
| NameGenerator.SubstitutePlainPrefix | sejda-core/src/test/java/org/sejda/core/support/prefix/NameGeneratorTest.java:128-133 | text before a token is copied unchanged and substitution carries on after it |
| NameGenerator.SubstituteToken | sejda-core/src/test/java/org/sejda/core/support/prefix/NameGeneratorTest.java:46-52 | a token with a value is replaced by that value |
| NameGenerator.SubstituteTokenVerbatim | sejda-core/src/test/java/org/sejda/core/support/prefix/NameGeneratorTest.java:71-77 | a token without a value, such as [CURRENTPAGE###] without a page, stays as written |
| NameGenerator.Sanitize | sejda-core/src/test/java/org/sejda/core/support/prefix/NameGeneratorTest.java:108-112 | the sanitised name holds no illegal character and is no longer than its input |
| NameGenerator.SanitizeAppend | sejda-core/src/test/java/org/sejda/core/support/prefix/NameGeneratorTest.java:100-106 | sanitising works piece by piece over a concatenation |
| NameGenerator.SanitizeLegal | sejda-core/src/test/java/org/sejda/core/support/prefix/NameGeneratorTest.java:114-119 | a legal name, including '$' and ordinary text, is left alone, so sanitising is idempotent |
| NameGenerator.SanitizeStrips | sejda-core/src/test/java/org/sejda/core/support/prefix/NameGeneratorTest.java:100-112 | an illegal character is dropped, not replaced |
| NameGenerator.Extension | sejda-core/src/test/java/org/sejda/core/support/prefix/NameGeneratorTest.java:140-156 | the extension is a suffix of the name that starts with '.' or is empty |
| NameGenerator.ExtensionOf | sejda-core/src/test/java/org/sejda/core/support/prefix/NameGeneratorTest.java:140-156 | base + "." + ext with a dot-free ext has extension "." + ext, starting right after base |
| NameGenerator.ShortenChars | sejda-core/src/test/java/org/sejda/core/support/prefix/NameGeneratorTest.java:150-156 | shortenFilenameCharLength leaves a short name alone and otherwise cuts the base name to exactly max characters; the result is a prefix of the base name followed by the whole extension |
| NameGenerator.ShortenBytes | sejda-core/src/test/java/org/sejda/core/support/prefix/NameGeneratorTest.java:142-148 | shortenFilenameBytesLength leaves a short name alone and otherwise cuts whole code points from the end of the base name until the name fits in max bytes of UTF-8; the extension survives |
| NameGenerator.ShortenBytesTight | sejda-core/src/test/java/org/sejda/core/support/prefix/NameGeneratorTest.java:142-148 | when it cuts, the result lies between max - 3 and max bytes, so 255 may give 253 as the test shows |
| NameGenerator.PlainTemplate | sejda-core/src/test/java/org/sejda/core/support/prefix/NameGeneratorTest.java:54-69 | a template without tokens gets the base name appended, and "<page>_" in front exactly when a page number is given |
| NameGenerator.ShortenBothKeepsExtension | sejda-core/src/test/java/org/sejda/core/support/prefix/NameGeneratorTest.java:85-106 | shortening by bytes and then by characters gives at most 255 characters and 255 bytes, and still ends with "." + ext after a prefix of the full name |
| NameGenerator.CharLimitFollowsFromByteLimit | sejda-core/src/test/java/org/sejda/core/support/prefix/NameGeneratorTest.java:92-98 | a name cut to 255 bytes is never cut again by the character limit |
| NameGenerator.GenerateNameBounded | sejda-core/src/test/java/org/sejda/core/support/prefix/NameGeneratorTest.java:85-106 | for every template and request, the generated name has fewer than 256 characters and 256 UTF-8 bytes, ends with "." + extension, and starts with a prefix of the untruncated name |
| NameGenerator.GenerateNameShort | sejda-core/src/test/java/org/sejda/core/support/prefix/NameGeneratorTest.java:54-69 | a name that already fits is returned unshortened |
| NameGenerator.Generate | sejda-core/src/test/java/org/sejda/core/support/prefix/NameGeneratorTest.java:79-83 | generate fails exactly for a null request and otherwise returns a bounded name |
| NameGenerator.TokenValue | sejda-core/src/test/java/org/sejda/core/support/prefix/NameGeneratorTest.java:46-77 | the value a token stands for: [BASENAME] the base name of the original name, [TEXT] the text, [CURRENTPAGE#..] and [FILENUMBER#..] the page and file number zero-padded to the number of '#'; a page or number that is not given leaves the token as written |
| NameGenerator.Substitute | sejda-core/src/test/java/org/sejda/core/support/prefix/NameGeneratorTest.java:46-52 | left to right, each token that has a value is replaced by it and every other character is copied |
| NameGenerator.PagePrefix | sejda-core/src/test/java/org/sejda/core/support/prefix/NameGeneratorTest.java:62-69 | "<page>_" goes in front exactly when a page is given and no [CURRENTPAGE] token uses it |
| NameGenerator.Body | sejda-core/src/test/java/org/sejda/core/support/prefix/NameGeneratorTest.java:54-60 | a template with tokens is substituted; a template without any gets the base name appended |
| NameGenerator.Compose | sejda-core/src/test/java/org/sejda/core/support/prefix/NameGeneratorTest.java:108-119 | the full name before shortening: prefix and body, sanitised, then "." and the extension |
| NameGenerator.GenerateName | sejda-core/src/test/java/org/sejda/core/support/prefix/NameGeneratorTest.java:85-98 | generate for a non-null request: the composed name, cut to 255 UTF-8 bytes and then to 255 characters |
| NameGeneratorExamples.PaddedPage | sejda-core/src/test/java/org/sejda/core/support/prefix/NameGeneratorTest.java:46-52 | [CURRENTPAGE###] with page 2 renders "002" |
| NameGeneratorExamples.SimplePrefixWithPage | sejda-core/src/test/java/org/sejda/core/support/prefix/NameGeneratorTest.java:62-69 | template "BLA_", page 1 and name "Original" give "1_BLA_Original.pdf" |
| NameGeneratorExamples.InvalidCharacters | sejda-core/src/test/java/org/sejda/core/support/prefix/NameGeneratorTest.java:108-112 | template "Invalid_\" gives "Invalid_.pdf" |
| NameGeneratorExamples.UnpaddedValues | sejda-core/src/test/java/org/sejda/core/support/prefix/NameGeneratorTest.java:114-119 | [CURRENTPAGE] renders page 99 as "99", and [BASENAME] renders "My file 6-04-2015 $1234-56" as it is, '$' included |
| NameGeneratorExamples.UnpaddedPage | sejda-core/src/test/java/org/sejda/core/support/prefix/NameGeneratorTest.java:114-119 | "[CURRENTPAGE]-[BASENAME]" with page 99 and original name "My file 6-04-2015 $1234-56" gives "99-My file 6-04-2015 $1234-56.pdf" |
| NameGeneratorExamples.NullRequestRefused | sejda-core/src/test/java/org/sejda/core/support/prefix/NameGeneratorTest.java:79-83 | a null request is refused |
| RepairTask.CollectedConcat | sejda-sambox/src/main/java/org/sejda/impl/sambox/RepairTask.java:95 | registering outputs a then b is registering a, then b on the result |
| RepairTask.IterateStep | sejda-sambox/src/main/java/org/sejda/impl/sambox/RepairTask.java:72-101 | one pass of the loop: a cancellation seen at iteration i ends the run there; otherwise the iteration runs and, if it completed, the loop goes on from i + 1 |
| RepairTask.OutputRequest | sejda-sambox/src/main/java/org/sejda/impl/sambox/RepairTask.java:93-94 | the name request of an output: extension pdf, the source's name as original name, and fileNumber set to the current step |
| RepairTask.Visit | sejda-sambox/src/main/java/org/sejda/impl/sambox/RepairTask.java:76-100 | one pass past the cancellation check: an unopenable source fails and closes the previous handler; no page left fails in strict mode and warns in lenient mode; a failed save fails; otherwise the output is registered under its generated name; the handler is closed in the finally, and the step is reported only when the pass completed |
| RepairTask.Iterate | sejda-sambox/src/main/java/org/sejda/impl/sambox/RepairTask.java:72-101 | the loop from source i on: the cancellation check first, then Visit, stopping at the first failure |
| RepairTask.RepairTask.constructor | sejda-sambox/src/main/java/org/sejda/impl/sambox/RepairTask.java:55-58 | a new task has no steps, no document handler, no writer and has done nothing |
| RepairTask.RepairTask.Before | sejda-sambox/src/main/java/org/sejda/impl/sambox/RepairTask.java:60-66 | before sets totalSteps to the number of sources and creates a new, empty output writer |
| RepairTask.RepairTask.Execute | sejda-sambox/src/main/java/org/sejda/impl/sambox/RepairTask.java:68-105 | execute does the loop of Iterate, adding its outputs to the writer; only when the loop ends without error does it flush the writer once, in an iteration order of its collection; the flush's failure is the task's failure |
| RepairTask.RepairTask.RepairSources | sejda-sambox/src/main/java/org/sejda/impl/sambox/RepairTask.java:70-101 | the loop over the sources leaves the trace, the handler, the error and the writer's collection as Iterate says |
| RepairTask.RepairTask.RepairNext | sejda-sambox/src/main/java/org/sejda/impl/sambox/RepairTask.java:72-101 | one loop pass: the cancellation check, then source i, accounted for against Iterate |
| RepairTask.RepairTask.RepairSource | sejda-sambox/src/main/java/org/sejda/impl/sambox/RepairTask.java:74-100 | one source: open, check for pages (strict throws, lenient warns), save, name and register, close the handler in finally, and report the step, all as Visit says |
| RepairTask.RepairTask.After | sejda-sambox/src/main/java/org/sejda/impl/sambox/RepairTask.java:107-110 | after closes the document handler left over, once more |
| RepairTaskProperties.ProgressAppend | sejda-sambox/src/main/java/org/sejda/impl/sambox/RepairTask.java:100 | the steps reported by a concatenated trace are those of each part, in order |
| RepairTaskProperties.ClosesAppend | sejda-sambox/src/main/java/org/sejda/impl/sambox/RepairTask.java:96-98 | the handler closes of a concatenated trace add up |
| RepairTaskProperties.VisitEvents | sejda-sambox/src/main/java/org/sejda/impl/sambox/RepairTask.java:74-100 | each iteration closes the handler exactly once, even when it fails. It reports step i + 1 of total, as its last event, exactly when it completes. It registers one output exactly when it completes. |
| RepairTaskProperties.VisitAdded | sejda-sambox/src/main/java/org/sejda/impl/sambox/RepairTask.java:74-100 | a completed iteration registers exactly one output: the name generated from its source with fileNumber i + 1, bound to its temporary file. A failed iteration registers nothing. |
| RepairTaskProperties.VisitEventKinds | sejda-sambox/src/main/java/org/sejda/impl/sambox/RepairTask.java:74-100 | an iteration never flushes. In strict mode it never warns. |
| RepairTaskProperties.NothingRecoveredHandling | sejda-sambox/src/main/java/org/sejda/impl/sambox/RepairTask.java:83-95 | a source with no pages left fails a strict task with "Unable to repair and recover any page from <name>", closing the handler and registering nothing; a lenient task warns with that message and goes on to save and register the output |
| RepairTaskProperties.UnopenableHandling | sejda-sambox/src/main/java/org/sejda/impl/sambox/RepairTask.java:76-77 | a source that cannot be opened fails the task; the finally block closes the handler left from the previous source |
| RepairTaskProperties.IterateOutputs | sejda-sambox/src/main/java/org/sejda/impl/sambox/RepairTask.java:70-95 | output j comes from source j, in order: its name is generated from that source's name with fileNumber j + 1 and its file is that iteration's temporary file; a completed loop registers one output per source |
| RepairTaskProperties.IterateProgress | sejda-sambox/src/main/java/org/sejda/impl/sambox/RepairTask.java:70-74 | the steps reported run 1, 2, ... in source order, one per registered output |
| RepairTaskProperties.IterateCloses | sejda-sambox/src/main/java/org/sejda/impl/sambox/RepairTask.java:96-98 | the loop closes the handler once per iteration it enters: once per registered output, plus once for an iteration that failed |
| RepairTaskProperties.ConcatKeeps | sejda-sambox/src/main/java/org/sejda/impl/sambox/RepairTask.java:72-101 | a trace without flushes (or warnings) stays so when another such trace is appended |
| RepairTaskProperties.IterateNeverFlushes | sejda-sambox/src/main/java/org/sejda/impl/sambox/RepairTask.java:103 | the loop itself never flushes; the one flush comes after it |
| RepairTaskProperties.IterateCancelled | sejda-sambox/src/main/java/org/sejda/impl/sambox/RepairTask.java:72-74 | a cancellation seen at iteration c stops the loop with an error, after at most c outputs, so the flush never happens. The error is the cancellation exactly when every source before c can be repaired, and then all c of them were registered |
| RepairTaskProperties.IterateCompletes | sejda-sambox/src/main/java/org/sejda/impl/sambox/RepairTask.java:72-101 | without a cancellation, a loop over sources that open, keep a page (or are handled leniently) and save completes |
| RepairTaskProperties.StrictNeverWarns | sejda-sambox/src/main/java/org/sejda/impl/sambox/RepairTask.java:83-88 | a strict task never issues a warning |
| RepairTaskProperties.GeneratedNames | sejda-sambox/src/main/java/org/sejda/impl/sambox/RepairTask.java:93-94 | with the name generator, every output name has at most 255 characters and 255 UTF-8 bytes and ends with ".pdf" after a prefix of the name the prefix gives for the source and its step |
| TaskExecutionService.Task.Before | src/test/java/org/sejda/core/manipulation/service/DefaultTaskExecutionServiceTest.java:67-77 | before records its call and fails as the task's behaviour says |
| TaskExecutionService.Task.Execute | src/test/java/org/sejda/core/manipulation/service/DefaultTaskExecutionServiceTest.java:67-77 | execute records its call and fails as the task's behaviour says |
| TaskExecutionService.Task.After | src/test/java/org/sejda/core/manipulation/service/DefaultTaskExecutionServiceTest.java:67-77 | after records its call |
| TaskExecutionService.Valid | src/test/java/org/sejda/core/manipulation/service/DefaultTaskExecutionServiceTest.java:59-65 | parameters are valid when an output is set and compression asks for PDF 1.5 or later |
| TaskExecutionService.ServiceCalls | src/test/java/org/sejda/core/manipulation/service/DefaultTaskExecutionServiceTest.java:59-86 | the calls one execution makes: none for invalid parameters; before and after when before fails; otherwise before, execute and after |
| TaskExecutionService.ServiceReport | src/test/java/org/sejda/core/manipulation/service/DefaultTaskExecutionServiceTest.java:54-86 | what one execution reports: rejected parameters, a failure in before or in execute, or completion |
| TaskExecutionService.ExecuteTask | src/test/java/org/sejda/core/manipulation/service/DefaultTaskExecutionServiceTest.java:54-86 | the service makes on the task exactly the calls ServiceCalls lists and reports ServiceReport, without raising the task's failure |
| TaskExecutionService.ValidationGate | src/test/java/org/sejda/core/manipulation/service/DefaultTaskExecutionServiceTest.java:59-65 | invalid parameters (version 1.4 with compression, or no output) reach no task method and are reported as rejected; valid ones always reach before |
| TaskExecutionService.BeforeFailure | src/test/java/org/sejda/core/manipulation/service/DefaultTaskExecutionServiceTest.java:67-77 | when before throws, the calls are before and after, execute is never called, and the failure is reported, not raised |
| TaskExecutionService.CallOrder | src/test/java/org/sejda/core/manipulation/service/DefaultTaskExecutionServiceTest.java:79-86 | for valid parameters the calls come as before, then execute only if before succeeded, then after, exactly once and last |
| FileOrDirectoryTaskOutput.New | sejda-model/src/main/java/org/sejda/model/output/FileOrDirectoryTaskOutput.java:33-38 | the constructor fails with IllegalArgumentException exactly for a null file |
| FileOrDirectoryTaskOutput.GetDestination | sejda-model/src/main/java/org/sejda/model/output/FileOrDirectoryTaskOutput.java:40-43 | getDestination: the file the output was built with |
| FileOrDirectoryTaskOutput.DestinationRoundTrip | sejda-model/src/main/java/org/sejda/model/output/FileOrDirectoryTaskOutput.java:40-43 | getDestination returns the file given to the constructor |
| FileOrDirectoryTaskOutput.Dispatcher.Dispatch | sejda-model/src/main/java/org/sejda/model/output/FileOrDirectoryTaskOutput.java:48 | the writer records the output it dispatches and fails with its IOException where it does |
| FileOrDirectoryTaskOutput.Accept | sejda-model/src/main/java/org/sejda/model/output/FileOrDirectoryTaskOutput.java:45-52 | accept has the writer dispatch this output exactly once; it fails exactly when the dispatch throws, with a TaskOutputVisitException carrying the fixed message and the IOException as cause |
| FileOrDirectoryTaskOutput.HashCode | sejda-model/src/main/java/org/sejda/model/output/FileOrDirectoryTaskOutput.java:59-62 | the hash code is 17 * 37 + the file's hash code, modulo 2^32 |
| FileOrDirectoryTaskOutput.Equals | sejda-model/src/main/java/org/sejda/model/output/FileOrDirectoryTaskOutput.java:64-74 | equals: the same object, or an instance of FileOrDirectoryTaskOutput, subclasses included, with an equal file |
| FileOrDirectoryTaskOutput.EqualsMeansSameFile | sejda-model/src/main/java/org/sejda/model/output/FileOrDirectoryTaskOutput.java:64-74 | equals holds exactly for an instance (subclasses included) with an equal file; never for null or an unrelated class |
| FileOrDirectoryTaskOutput.EqualsIsEquivalence | sejda-model/src/main/java/org/sejda/model/output/FileOrDirectoryTaskOutput.java:64-74 | equals is reflexive, symmetric and transitive on outputs |
| FileOrDirectoryTaskOutput.HashCodeConsistent | sejda-model/src/main/java/org/sejda/model/output/FileOrDirectoryTaskOutput.java:59-74 | equal outputs have equal hash codes, and two hash codes agree exactly when the files' hash codes do |
| InsertPageOperation.New | sejda-model/src/main/java/org/sejda/model/parameter/edit/InsertPageOperation.java:28-34 | the constructor accepts any int and getPageNumber returns it |
| InsertPageOperation.HashCode | sejda-model/src/main/java/org/sejda/model/parameter/edit/InsertPageOperation.java:49-54 | the hash code is 17 * 37 + pageNumber, modulo 2^32 |
| InsertPageOperation.Equals | sejda-model/src/main/java/org/sejda/model/parameter/edit/InsertPageOperation.java:36-47 | equals: the same object, or an object of exactly the runtime class InsertPageOperation with the same page number |
| InsertPageOperation.EqualsMeansSamePage | sejda-model/src/main/java/org/sejda/model/parameter/edit/InsertPageOperation.java:36-47 | equals holds exactly for an object of the same runtime class with the same page number; never for null, another class or a subclass |
| InsertPageOperation.EqualsIsEquivalence | sejda-model/src/main/java/org/sejda/model/parameter/edit/InsertPageOperation.java:36-47 | equals is reflexive, symmetric and transitive on operations |
| InsertPageOperation.HashCodeMatchesEquals | sejda-model/src/main/java/org/sejda/model/parameter/edit/InsertPageOperation.java:36-54 | two operations have the same hash code exactly when they are equal |
| JavaInt.WrapInjective | sejda-model/src/main/java/org/sejda/model/parameter/edit/InsertPageOperation.java:51-53 | int wrap-around loses nothing on values less than 2^32 apart, so the hash code keeps the page number |
| AlternateMixCliArgumentsTransformer.FlattenAppend | sejda-console/src/main/java/org/sejda/cli/transformer/AlternateMixCliArgumentsTransformer.java:48-49 | the sources of a + b are those of a followed by those of b |
| AlternateMixCliArgumentsTransformer.FlattenOne | sejda-console/src/main/java/org/sejda/cli/transformer/AlternateMixCliArgumentsTransformer.java:48-49 | an argument contributes its own sources, unchanged |
| AlternateMixCliArgumentsTransformer.Flatten | sejda-console/src/main/java/org/sejda/cli/transformer/AlternateMixCliArgumentsTransformer.java:48-49 | the flatMap over the file arguments: each argument's sources, argument by argument, in order |
| AlternateMixCliArgumentsTransformer.ToTaskParameters | sejda-console/src/main/java/org/sejda/cli/transformer/AlternateMixCliArgumentsTransformer.java:47-61 | the transformer succeeds exactly when the arguments flatten to two sources. The error message gives the number of file arguments. On success the first input is the first source with reverseFirst/firstStep, and the second is the second source with reverseSecond/secondStep. |
| AlternateMixCliArgumentsTransformer.TwoFilesInOrder | sejda-console/src/main/java/org/sejda/cli/transformer/AlternateMixCliArgumentsTransformer.java:55-61 | two single-source arguments become the first and second input, in the order given, each with its own options |
| AlternateMixCliArgumentsTransformer.MessageCountsArguments | sejda-console/src/main/java/org/sejda/cli/transformer/AlternateMixCliArgumentsTransformer.java:50-53 | one argument standing for three sources is refused with "found 1", the count of arguments rather than of sources |
| AlternateMixCliArgumentsTransformer.OneArgumentTwoSources | sejda-console/src/main/java/org/sejda/cli/transformer/AlternateMixCliArgumentsTransformer.java:48-59 | one argument standing for exactly two sources is accepted, its sources in order |

## Where the code and its description differ

The model follows the code.

- **Unreachable `mkdirs`.** The directory destination is meant to create missing parent directories. The code rejects any target that is not already a directory (line 117), so its `mkdirs` branch (line 121) can never run. `MkdirsUnreachable` proves this.
- **Temporary files that survive an aborted flush.** No temporary file is meant to outlive a flush. But a temporary file survives when the flush aborts before the `try` that deletes it. This happens on a wrong map size, a refused overwrite or a blank name, and to every entry after the one that failed. See `RejectedDestinationTouchesNothing`, `DirectoryBlankAborts` and `StreamBlankAborts`.
- **Extension inside the 255-character limit.** The tests put the extension inside the 255 budget, so the generated name, extension included, is at most 255 characters and 255 bytes. The model follows the tests.
- **What lenient mode covers in `RepairTask`.** Only a source with no page left is lenient. A source that cannot be opened, or cannot be saved, fails the task in either mode.
- **Temporary files left by a failed repair.** After a failure, `RepairTask` does not delete the temporary files it already registered. The writer keeps them and nobody flushes it.

## Left out

- NameGenerator's own source is not part of this model. Its behaviour is taken from the assertions of `NameGeneratorTest`.
  - Only `\` and `|` are pinned down as illegal characters there. The model also strips the other characters that file systems refuse.
  - The two tests built on the 31-character template `BLA_[CURRENTPAGE###]_[BASENAME]` are covered by the generic lemmas (`SubstituteToken`, `PaddedPage`, `SubstituteTokenVerbatim`) rather than evaluated whole.
- Cost-driven parameters:
  - RepairTask takes the name generator as a parameter of its context, rather than unfolding `NameGenerator.GenerateName` inside every proof. `GeneratedNames` states what the output names are once that parameter is the NameGenerator model.
  - RepairTask takes the writer's iteration order as a parameter. Any function that enumerates the collection is accepted.
- MultipleOutputWriter's implementation is not part of this model; only its interface is.
  - That the collection is empty after a flush comes from its documentation, and is modelled as holding whether the flush succeeded or not.
  - A name added twice keeps the last file (`Map.put`).
- PDF work is uninterpreted: opening, rebuilding the page tree, counting pages, compression and saving. Each source carries its outcome.
  - `createTemporaryPdfBuffer` is assumed to succeed. The model takes any temporary file per source, the same one for two sources included, and every lemma holds whichever files it gets.
  - `setCreatorOnPDDocument` and the compress flag are not modelled.
- The task's `super.before` and the creation of the document loader are not modelled. Neither are logging and event listeners, beyond the events the task emits.
- The execution service's own source is not part of this model; its behaviour comes from its unit test.
  - Validation is reduced to the two rules the test exercises: an output must be set, and compression needs version 1.5 or later. The latter is inferred from the test's invalid combination, version 1.4 with compression.
  - The lookup of the task through the execution context is not modelled; the task is given directly.
- FileOrDirectoryTaskOutput.HashCode: `File.hashCode` is platform-specific, so it is a parameter. The lemmas hold for every choice.
- FileSystem.ChildInjective: a path is a sequence of names compared exactly. So an entry's name is taken as one path component, and the file system as case-sensitive. `new File(dir, name)` also normalises a trailing `/` and splits a name holding `/` into several components. On a case-insensitive file system, the default on Windows and macOS, `A.pdf` and `a.pdf` are one file. There, `DirectoryDelivers` can fail for two distinct keys: the second copy is refused, or it overwrites the first.
- FileOrDirectoryTaskOutput.EqualsMeansSameFile: `File.equals` is taken as exact equality of paths. On a case-insensitive file system it is not.
- FileSystem.Copied: the file system is a map from paths, with no rule that a path's parents exist. A path whose parents are missing is accepted as it stands. Only the parents FileUtils.copyFile makes are added.
- FileSystem.Copied: a copy fails only on the rights of its input or output, which FileUtils checks before writing any byte. A copy that fails part way through the transfer (a full disk, a device error) is not modelled, so the partial output FileUtils can leave behind is not either.
- RepairTask.RepairTask.Execute: the existing-output policy the task gives the writer is reduced to a boolean: overwrite, or fail on an existing output. The policy type and the writer factory are not part of this model. Any other behaviour they give an existing output is not modelled.
- `toString` is not modelled: it is only text for logs.
- The zip stream's byte format, `IOUtils.copy` buffering and stream closing errors are not modelled. Those closes are quiet in the code.
- AlternateMixCliArgumentsTransformer.ToTaskParameters: `populateOutputTaskParameters` and `populateAbstractParameters` belong to the base transformer, which is not part of this model.
- Concurrency is not modelled. The cancellation flag is modelled as the index of the first iteration whose check sees it set.
