# animals_cli as a verified record store

A Dafny model of `animals_cli`, a small command-line zoo. The program keeps
two CSV files:

- a species table with the columns `name, class, …` holding a name, a class,
  a list of preys and a list of predators;
- a table of living individuals with the columns `name, sex`.

The CLI commands create, delete and read species. They spawn, reproduce,
kill, feed and count individuals.

What the model covers:

- **A file** is a header row plus a sequence of lines (`Csv.Table`). A line
  is a record or a line the reader fails on.
- **The csv reader** is a class (`Csv.Reader`) with a cursor.
  - It consumes the header when it is opened.
  - It refuses records whose width differs from the header's, because the
    reader is not flexible.
  - After `seek(Position::new())` it yields the header row again as a data
    record. The rewind goes to byte 0 and the header skip is not repeated.
    The model reproduces this: `Reader.Stream()` is `[header] + body` once
    the reader has been rewound.
- **The scanning readers** are imperative methods with loops and invariants:
  `read_animal_alive`, `has_both_sexes`, both `count_animal`s,
  `read_animal_data` and the older `read_animal`. Each is proved equal to a
  recursive specification function over the unread lines. That function
  returns the result together with the number of lines consumed, so the
  cursor position after an error is stated exactly.
- **The copy-skip delete engine** (`delete_animal_for_path`) is a loop
  carrying the `animal_killed` flag. It writes into a temporary file, and the
  rename is the single commit point. Its output is proved to be:
  - every row not keyed by the name, in delete-all mode;
  - the input minus its first row keyed by the name, in delete-one mode.
- **The value layer**:
  - the class and sex tags, which are bijections;
  - `-`-joined lists and their splitting;
  - the record codecs. Columns 2 and 3 of a species row hold the preys, then
    the predators, in both the encoder and the decoder, so the round trip
    holds whatever the test header calls the columns.
- **The input validators.** The regular expression `^[a-z]+(?:-[a-z]+)*$` is
  a character-level predicate. It is proved to accept exactly the strings
  whose `-`-pieces are non-empty runs of `a`–`z`.
- **The commands** are methods of a `Store` that owns both files. Random
  choices are nondeterministic picks (`:|`) with a membership guarantee.
- **The older single-struct revision** (`animals.rs`, `animals_csv.rs`) has
  a non-rewinding reader and a panicking decoder. The panic is a
  precondition.

I/O failures of the file layer are parameters of the delete engine:

- `tempOk`: the temporary file and its writer could be created;
- `commitOk`: writing, flushing and renaming succeed.

## Model

| member | source | states |
|---|---|---|
| Csv.Reader.Open | src/animal_alive_csv.rs:156-158 | A reader opened on a file has consumed the header: it holds that header and body, is not rewound, and its cursor is at the first data line. |
| Csv.Reader.Next | src/custom_writers_and_readers.rs:52-53 | One step of `records()`: None at the end of the file and nothing moves; otherwise the next line as a record, or ReadFailed for an unreadable or wrong-width line, and the unread lines lose exactly their first element. |
| Csv.Reader.Seek | src/custom_writers_and_readers.rs:46-49 | A rewind puts the cursor at 0 and marks the reader rewound, so the header row is yielded again as data. |
| Csv.CsvFile.constructor | src/animal_csv_shared_functions.rs:11-19 | A new file holds only its header row. |
| Csv.CsvFile.Append | src/animal_csv_shared_functions.rs:34 | An append-mode write adds exactly one record at the end; the header and earlier lines are unchanged. |
| Csv.CountKey | src/custom_writers_and_readers.rs:54-56 | The number of rows keyed by a name is at most the number of rows. |
| Csv.FirstStop | src/animal_alive_csv.rs:29-31 | The first line a keyed lookup stops at (unreadable, or keyed by the name): no earlier line stops, and the line there does. |
| Csv.CountFrom | src/custom_writers_and_readers.rs:50-60 | The counting loop: a successful count reads every line and lies between the starting count and that count plus the number of lines; a failure is always ReadFailed. |
| Csv.CountFromAdds | src/custom_writers_and_readers.rs:51-57 | Over lines that all read, counting adds exactly the number of rows keyed by the name. |
| Csv.CountScanCounts | src/custom_writers_and_readers.rs:50-60 | Over lines that all read, `count_animal` returns the number of rows whose column 0 is the name. |
| Csv.CountFromFails | src/custom_writers_and_readers.rs:53 | Counting returns an error if and only if some line does not read. |
| Csv.CountKeyAppend | src/custom_writers_and_readers.rs:52-56 | Counting is additive over concatenated rows. |
| Csv.CountPastHeader | src/custom_writers_and_readers.rs:46-49 | After a rewind the header row reappears as data, and for any name other than the header's first column the count is unchanged. |
| Csv.RecordsOfRowsOf | src/custom_writers_and_readers.rs:52-53 | Lines that all read are exactly the records of their rows, and those rows have the header's width. |
| Csv.RowsOfRecords | src/animal_csv_shared_functions.rs:34 | Writing rows of the header's width and reading them back gives the same rows, all readable. |
| Csv.CountStep | src/custom_writers_and_readers.rs:52-56 | One iteration of the counting loop: an unreadable first line ends the count with ReadFailed after one line; a readable one adds 1 exactly when column 0 is the name and continues. |
| CustomReaders.CustomReader.constructor | src/custom_writers_and_readers.rs:43-45 | The wrapper holds the given csv reader. |
| CustomReaders.CustomReader.SeekToBeginning | src/custom_writers_and_readers.rs:46-49 | The inner reader is rewound to position 0. |
| CustomReaders.CustomReader.CountAnimal | src/custom_writers_and_readers.rs:50-60 | The result is the counting specification over the unread lines. On success the reader is rewound to 0. On error it is not rewound, and the cursor sits just after the failing line. |
| CustomReaders.CountTwice | src/custom_writers_and_readers.rs:46-60 | Two counts in a row on one fresh reader each return the number of rows keyed by their name. The first count rewinds, and the header row it brings back adds nothing to the second. |
| CustomReaders.CountAnimalOnce | src/custom_writers_and_readers.rs:50-60 | A count on a freshly opened reader is the counting specification over the file body. |
| CustomReaders.CountTestFile | src/animal_csv_shared_functions.rs:87-92 | On the test file, snake counts 2 and then chameleon counts 2 on the same reader. |
| AnimalStructs.ClassTag | src/animal_structs.rs:48-58 | Every class name is a non-empty lowercase string. |
| AnimalStructs.ClassTagInjective | src/animal_structs.rs:48-58 | Two classes have the same name if and only if they are the same class, so the six names are distinct. |
| AnimalStructs.BloodOf | src/animal_structs.rs:76-81 | The blood type is Warm exactly for Mammal and Bird. |
| AnimalStructs.AnimalData.New | src/animal_structs.rs:32-39 | `new` stores name, class, predators and preys unchanged. |
| AnimalStructs.AnimalData.ClassStr | src/animal_structs.rs:48-58 | `class_str` is a lowercase non-empty name that belongs to this class and to no other. |
| AnimalStructs.AnimalData.PredatorsStr | src/animal_structs.rs:64-66 | `predators_str` splits back on `-` into the predators whenever they are non-empty and hyphen-free. |
| AnimalStructs.AnimalData.PreysStr | src/animal_structs.rs:72-74 | `preys_str` splits back on `-` into the preys under the same condition. |
| AnimalStructs.AnimalData.BloodType | src/animal_structs.rs:76-81 | Warm if and only if the class is Mammal or Bird. |
| AnimalStructs.AnimalAlive.Born | src/animal_structs.rs:127-132 | `born` stores the name and sex unchanged. |
| AnimalStructs.AnimalAlive.SexStr | src/animal_structs.rs:119-125 | "male" exactly for Male and "female" exactly for Female. |
| AnimalStructs.SnakeDataExample | src/animal_structs.rs:155-190 | The snake model is a cold-blooded reptile whose predators join to "eagle-mongoose" and whose preys are rat and squirrel. |
| CustomStringMethods.ToClass | src/custom_string_methods.rs:10-19 | A successful conversion returns the class whose name is the input. A failure is InvalidField and happens exactly when no class has that name. |
| CustomStringMethods.ToClassOfTag | src/custom_string_methods.rs:10-19 | `to_class(class_str(c)) == Ok(c)` for every class. |
| CustomStringMethods.ValidClassConverts | src/input_validators.rs:8-18 | `valid_class` accepts a string if and only if `to_class` converts it. |
| CustomStringMethods.ToClassRejects | src/custom_string_methods.rs:18 | Capitalised, plural and empty strings are rejected. |
| Hyphenated.Split | src/animal_data_csv.rs:44-45 | Splitting on `-` always gives at least one piece, and no piece contains `-`. |
| Hyphenated.JoinSplit | src/animal_structs.rs:64-74 | Joining the pieces of any string with `-` gives the string back. |
| Hyphenated.SplitWord | src/animal_data_csv.rs:44 | A string without `-` splits into itself alone. |
| Hyphenated.SplitAfterWord | src/animal_data_csv.rs:44 | Splitting `w-t` gives `w` followed by the pieces of `t`. |
| Hyphenated.SplitJoin | src/animal_data_csv.rs:44-45 | A non-empty list of hyphen-free strings, joined with `-` and split again, is the same list. |
| Hyphenated.JoinExample | src/animal_structs.rs:172-176 | ["eagle","mongoose"] joins to "eagle-mongoose" and ["fox","human"] to "fox-human". |
| InputValidators.ValidStringLowercasedWithHyphens | src/input_validators.rs:3-6 | The pattern accepts a string if and only if every `-`-separated piece is a non-empty run of `a`–`z`. |
| InputValidators.TailChars | src/input_validators.rs:4 | The `(?:-[a-z]+)*` tail holds only letters and hyphens, and ends with a letter. |
| InputValidators.TailPieces | src/input_validators.rs:4 | Every piece of a matching tail after the first is a non-empty word. |
| InputValidators.LowersThenTail | src/input_validators.rs:4 | Letters followed by a matching tail still match the tail. |
| InputValidators.WordsMatch | src/input_validators.rs:4 | A non-empty list of words joined with `-` matches the pattern. |
| InputValidators.ValidIffWords | src/input_validators.rs:3-6 | The character-level pattern holds if and only if the `-`-pieces are all words. |
| InputValidators.ValidSplitsIntoWords | src/input_validators.rs:3-6 | An accepted string splits into non-empty hyphen-free words that re-join to it. |
| InputValidators.ValidClass | src/input_validators.rs:8-18 | Accepts exactly the six class names. |
| InputValidators.ValidAnimalName | src/input_validators.rs:20-22 | The hyphenated-lowercase predicate. |
| InputValidators.ValidPredators | src/input_validators.rs:24-26 | The same predicate. |
| InputValidators.ValidPreys | src/input_validators.rs:27-29 | The same predicate. |
| InputValidators.AnyInputIsValid | src/input_validators.rs:31-33 | Always true. |
| InputValidators.ValidSex | src/input_validators.rs:35-37 | Accepts exactly "m" and "f". |
| InputValidators.AcceptedPair | src/input_validators.rs:49 | "shark-jelly" is accepted. |
| InputValidators.AcceptedSingle | src/input_validators.rs:50 | "rat" is accepted. |
| InputValidators.AcceptedTriple | src/input_validators.rs:51 | "elephant-lion-zebra" is accepted. |
| InputValidators.RejectedExamples | src/input_validators.rs:53-59 | A leading hyphen, the empty string and a lone "-" are rejected. |
| InputValidators.RejectedTrailingHyphen | src/input_validators.rs:54-55 | Trailing hyphens are rejected. |
| InputValidators.RejectedDigit | src/input_validators.rs:57 | A digit is rejected. |
| InputValidators.ClassAndSexExamples | src/input_validators.rs:64-89 | Misspelt and plural classes are rejected; "m" and "f" are accepted, and "male" and "female" are not. |
| AliveCsv.ToAliveCsv | src/animal_alive_csv.rs:9-11 | Two fields: the name, then a sex literal that decodes back to the same sex. |
| AliveCsv.DecodeSex | src/animal_alive_csv.rs:32-36 | Succeeds exactly on "male" and "female", inverting `sex_str`; anything else is InvalidField. |
| AliveCsv.Lookup | src/animal_alive_csv.rs:28-44 | The `read_animal_alive` loop never reads more lines than there are. |
| AliveCsv.LookupFirstStop | src/animal_alive_csv.rs:28-44 | The lookup ends at the first unreadable or matching line. There it gives None (after reading every line), ReadFailed, or the decoded record (an unknown sex being InvalidField), reading exactly up to that line. |
| AliveCsv.LookupNone | src/animal_alive_csv.rs:41-43 | The result is None if and only if every line reads and none is keyed by the name. |
| AliveCsv.LookupFindsWritten | src/animal_alive_csv.rs:9-11 | A record written by `to_alive_csv` after non-matching readable lines is found and decodes to the same individual. |
| AliveCsv.LookupPastHeader | src/animal_alive_csv.rs:38 | The header row seen again after a rewind does not change a lookup for a name other than the header's first column. |
| AliveCsv.LookupStop | src/animal_alive_csv.rs:30-39 | One iteration that ends the loop: an unreadable line, an unknown sex, or a found individual, after one line. |
| AliveCsv.LookupPass | src/animal_alive_csv.rs:29-31 | One iteration over a non-matching line: the lookup continues with the rest, having read one more line. |
| AliveCsv.BothFrom | src/animal_alive_csv.rs:45-64 | The `has_both_sexes` loop never reads more lines than there are. |
| AliveCsv.BothStop | src/animal_alive_csv.rs:48-60 | One iteration that ends the loop: an unreadable line or an unknown sex is an error, and the missing sex seen completes the pair with true. |
| AliveCsv.BothPass | src/animal_alive_csv.rs:48-56 | One iteration that does not complete the pair: the flags absorb this line's sex and the scan continues. |
| AliveCsv.HasSexCons | src/animal_alive_csv.rs:50-53 | A sex is present among the lines if and only if it is on the first line or among the rest. |
| AliveCsv.BothFromClean | src/animal_alive_csv.rs:45-64 | Over readable lines whose matching records all carry valid sexes, the answer is whether both sexes are present, counting those already seen. |
| AliveCsv.BothScanClean | src/animal_alive_csv.rs:45-64 | `has_both_sexes` is true if and only if the name has both a male and a female record. |
| AliveCsv.BothFromStopsEarly | src/animal_alive_csv.rs:57-60 | Once a prefix supplies both sexes the answer is true, whatever follows, and nothing past that prefix is read. |
| AliveCsv.BothPastHeader | src/animal_alive_csv.rs:58-62 | The header row seen again after a rewind does not change the answer for a name other than the header's first column. |
| AliveCsv.WriteAnimalAliveFile | src/animal_alive_csv.rs:14-18 | Appends exactly the `to_alive_csv` record of the individual. |
| AliveCsv.ReadAnimalAlive | src/animal_alive_csv.rs:28-44 | The result is the lookup specification over the unread lines. Found and not-found both rewind to 0. An error leaves the reader unrewound, just after the failing line. |
| AliveCsv.HasBothSexes | src/animal_alive_csv.rs:45-64 | The result is the `has_both_sexes` specification, including the early exit. Both Ok paths rewind; an error stops just after the failing line. |
| AliveCsv.CountAnimal | src/animal_alive_csv.rs:65-74 | The result is the counting specification. It never rewinds: on success the cursor is at the end of the stream, and on error just after the failing line. |
| AliveCsv.AnimalAliveInFile | src/animal_alive_csv.rs:75-81 | Ok(true) exactly when the lookup found a record, Ok(false) when it found none, and the lookup's error otherwise. |
| AliveCsv.LookupTwice | src/animal_alive_csv.rs:160-163 | Two lookups on one reader from the start agree, because the first rewinds and the header row it brings back is skipped. |
| AliveCsv.SnakeHasBothSexes | src/animal_alive_csv.rs:127-138 | In the test file (snake F, snake M, chameleon M, chameleon M) snake has both sexes, found after two lines. |
| AliveCsv.ChameleonLacksAFemale | src/animal_alive_csv.rs:139 | Chameleon does not have both sexes. |
| AliveCsv.BothSexesTest | src/animal_alive_csv.rs:120-142 | The test sequence on one reader: snake true, then chameleon false. |
| AliveCsv.InFileTest | src/animal_alive_csv.rs:144-165 | Snake and chameleon are alive, while cow and rabbit are not, queried in that order on one reader. |
| DataCsv.ToDataCsv | src/animal_data_csv.rs:9-16 | Four fields: the name, a class literal that converts back to the class, the joined preys in column 2 and the joined predators in column 3. |
| DataCsv.DecodeData | src/animal_data_csv.rs:34-46 | Fails with InvalidField exactly when the class literal is unknown. Otherwise it returns the name, that class, as preys and predators two non-empty lists of hyphen-free pieces that re-join to column 2 and column 3, which makes them the `-`-pieces of those columns. |
| DataCsv.DecodeToDataCsv | src/animal_data_csv.rs:9-16 | Decoding an encoded species gives it back when both lists are non-empty and hyphen-free. |
| DataCsv.EmptyListReadsBackAsEmptyName | src/animal_data_csv.rs:44-45 | An empty list is written as "" and read back as [""]. |
| DataCsv.Lookup | src/animal_data_csv.rs:31-53 | The `read_animal_data` loop never reads more lines than there are, and a found species carries the queried name and non-empty lists. |
| DataCsv.LookupFirstStop | src/animal_data_csv.rs:31-53 | The lookup ends at the first unreadable or matching line, giving None, ReadFailed or the decoded record (an unknown class being InvalidField), and reads exactly up to that line. |
| DataCsv.LookupNone | src/animal_data_csv.rs:51-52 | None if and only if every line reads and none is keyed by the name. |
| DataCsv.LookupFindsWritten | src/animal_data_csv.rs:19-23 | A record written by `to_data_csv` after non-matching readable lines is found. |
| DataCsv.LookupPastHeader | src/animal_data_csv.rs:47 | The header row seen again after a rewind does not change a lookup for a name other than the header's first column. |
| DataCsv.LookupStop | src/animal_data_csv.rs:32-48 | One iteration that ends the loop: an unreadable line, an unknown class, or the decoded species, after one line. |
| DataCsv.LookupPass | src/animal_data_csv.rs:32-34 | One iteration over a non-matching line continues with the rest. |
| DataCsv.WriteAnimalDataFile | src/animal_data_csv.rs:19-23 | Appends exactly the `to_data_csv` record. |
| DataCsv.ReadAnimalData | src/animal_data_csv.rs:31-53 | The result is the lookup specification over the unread lines. Both Ok paths rewind to 0; an error stops just after the failing line. |
| DataCsv.AnimalDataInFile | src/animal_data_csv.rs:54-60 | Ok(true) exactly when the lookup found a species, Ok(false) when it found none, and the lookup's error otherwise. |
| DataCsv.SnakeIsFound | src/animal_data_csv.rs:109-114 | The snake record of the test file decodes to the snake species. |
| DataCsv.ChameleonIsFound | src/animal_data_csv.rs:115-120 | The chameleon record decodes to the chameleon species. |
| DataCsv.OthersAreNotFound | src/animal_data_csv.rs:129-130 | Every other name is absent from the test file. |
| DataCsv.InFileTest | src/animal_data_csv.rs:128-131 | Snake true, cow false, rabbit false and chameleon true, in that order on one reader. |
| SharedCsv.NameColumn | src/animal_csv_shared_functions.rs:21-26 | The key column is the first header position labelled `name`. |
| SharedCsv.Without | src/animal_csv_shared_functions.rs:49-51 | Delete-all output: its rows are exactly the input rows not keyed by the name. |
| SharedCsv.FirstKey | src/animal_csv_shared_functions.rs:31-38 | The position of the first row keyed by the name: no earlier row is keyed, and the row there is. |
| SharedCsv.SurvivorsFromRows | src/animal_csv_shared_functions.rs:29-34 | The copy loop only writes rows it read. |
| SharedCsv.SurvivorsReadable | src/animal_csv_shared_functions.rs:34 | The copied rows have the header's width, so the new file reads back as exactly those rows. |
| SharedCsv.SurvivorsAfterKill | src/animal_csv_shared_functions.rs:31-32 | In delete-one mode, once a row has been dropped every later row is copied. |
| SharedCsv.SurvivorsDeleteAll | src/animal_csv_shared_functions.rs:49-51 | In delete-all mode the loop keeps exactly the rows not keyed by the name, in order. |
| SharedCsv.RemoveFirstCons | src/animal_csv_shared_functions.rs:31-34 | A leading non-matching row is kept in front of the delete-one result of the rest. |
| SharedCsv.SurvivorsDeleteOne | src/animal_csv_shared_functions.rs:53-55 | In delete-one mode the loop drops exactly the first row keyed by the name and keeps the rest, later matches included, in order. |
| SharedCsv.WithoutCountsZero | src/animal_csv_shared_functions.rs:94-98 | After delete-all, the name counts 0. |
| SharedCsv.WithoutKeepsOthers | src/animal_csv_shared_functions.rs:99-100 | Delete-all does not change the count of any other name. |
| SharedCsv.WithoutNoMatch | src/animal_csv_shared_functions.rs:31-34 | With no matching row, delete-all is the identity. |
| SharedCsv.CountKeyZeroFirstKey | src/animal_csv_shared_functions.rs:31-38 | A name counts 0 if and only if no row is keyed by it. |
| SharedCsv.RemoveFirstCounts | src/animal_csv_shared_functions.rs:118-131 | Delete-one is the identity when the name counts 0, and lowers its count by exactly one otherwise. |
| SharedCsv.RemoveFirstKeepsOthers | src/animal_csv_shared_functions.rs:31-34 | Delete-one does not change the count of any other name. |
| SharedCsv.RemoveFirstSplit | src/animal_csv_shared_functions.rs:31-38 | Delete-one removes exactly the first matching row from every count. |
| SharedCsv.SurvivorsCons | src/animal_csv_shared_functions.rs:29-39 | One step of the loop: the row is written unless its key is the name and (delete-all, or nothing dropped yet), and in that case the flag is set. |
| SharedCsv.CopyStep | src/animal_csv_shared_functions.rs:29-39 | The loop invariant step: what was written plus what the rest will write is preserved by one iteration. |
| SharedCsv.CopySurvivors | src/animal_csv_shared_functions.rs:28-40 | The copy loop fails with ReadFailed if and only if some line does not read. Otherwise the temporary file holds the header followed by exactly the surviving rows. |
| SharedCsv.DeleteAnimalForPath | src/animal_csv_shared_functions.rs:6-47 | Each failure (temp creation, a read, the write/flush/rename) returns its error and leaves the file unchanged. Success replaces the body with the surviving rows under the unchanged header, and the result reads back. |
| SharedCsv.DeleteAllAnimalsForPath | src/animal_csv_shared_functions.rs:49-51 | Success leaves exactly the rows not keyed by the name; any failure leaves the file unchanged. |
| SharedCsv.DeleteOneAnimalForPath | src/animal_csv_shared_functions.rs:53-55 | Success drops exactly the first row keyed by the name; any failure leaves the file unchanged. |
| SharedCsv.TestFile | src/animal_csv_shared_functions.rs:78-85 | The test file is the header `name,sex` followed by snake, chameleon, chameleon, snake. |
| SharedCsv.TestCounts | src/animal_csv_shared_functions.rs:89-92 | In it snake and chameleon each count 2. |
| SharedCsv.DeleteAllTest | src/animal_csv_shared_functions.rs:76-103 | After deleting all snakes, snake counts 0 and chameleon 2. |
| SharedCsv.CountOnFreshReader | src/animal_csv_shared_functions.rs:95-97 | A count on a freshly opened reader is the number of rows keyed by the name. |
| SharedCsv.DeleteOne | src/animal_csv_shared_functions.rs:71-74 | Delete-one on a readable file leaves the header and the delete-one rows. |
| SharedCsv.DeleteOneTest | src/animal_csv_shared_functions.rs:105-134 | Snake counts 2, then 1, then 0 across two delete-one calls. |
| Animals.Animal.Born | src/animals.rs:104-118 | All five fields are stored unchanged. |
| Animals.Animal.ClassStr | src/animals.rs:57-67 | The name of this class and of no other. |
| Animals.Animal.PredatorsStr | src/animals.rs:73-75 | Splits back into the predators when they are non-empty and hyphen-free. |
| Animals.Animal.PreysStr | src/animals.rs:81-83 | Splits back into the preys under the same condition. |
| Animals.Animal.SexStr | src/animals.rs:89-95 | "male" exactly for Male and "female" exactly for Female. |
| Animals.Animal.BloodType | src/animals.rs:97-102 | Warm if and only if Mammal or Bird. |
| Animals.Logger.constructor | src/animals.rs:161-162 | A test logger starts empty. |
| Animals.Logger.Log | src/animals.rs:164-166 | Logging appends exactly the message. |
| Animals.Eat | src/animals.rs:120-124 | For a non-empty prey list, exactly one message is logged, naming the animal and one of its preys. |
| Animals.ModelExamples | src/animals.rs:176-221 | Cow is a warm-blooded male mammal with predators "fox-human" and preys grass and straw; snake is a cold-blooded female. |
| Animals.EatTest | src/animals.rs:238-242 | `cow_model().eat` logs one message, naming "cow" and either grass or straw. |
| AnimalsCsv.ToCsv | src/animals_csv.rs:8-16 | Five fields: the name, a class literal, the joined preys, the joined predators and a sex literal, each decoding back. |
| AnimalsCsv.Decode | src/animals_csv.rs:42-58 | A decodable row gives the name, the class and sex of its literals, as preys and predators two non-empty lists of hyphen-free pieces that re-join to column 2 and column 3. |
| AnimalsCsv.DecodeToCsv | src/animals_csv.rs:8-16 | Decoding an encoded animal gives it back when both lists are non-empty and hyphen-free. |
| AnimalsCsv.Lookup | src/animals_csv.rs:38-62 | The `read_animal` loop never reads more lines than there are. |
| AnimalsCsv.LookupFirstStop | src/animals_csv.rs:38-62 | The lookup ends at the first unreadable or matching line, giving None, ReadFailed or the decoded animal, and reads exactly up to that line. |
| AnimalsCsv.LookupSkips | src/animals_csv.rs:39-41 | A line that is readable and not keyed by the name is consumed and the lookup continues. |
| AnimalsCsv.LookupStop | src/animals_csv.rs:40-59 | One iteration that ends the loop: an unreadable line is ReadFailed, a match is decoded, after one line. |
| AnimalsCsv.LookupPass | src/animals_csv.rs:39-41 | One iteration over a non-matching line continues with the rest. |
| AnimalsCsv.WriteAnimalCsv | src/animals_csv.rs:28-30 | Appends exactly one 5-field `to_csv` record. |
| AnimalsCsv.ReadAnimal | src/animals_csv.rs:38-62 | The result is the lookup specification over the unread lines. The reader is never rewound, and the cursor advances by exactly the lines the lookup read. |
| AnimalsCsv.DecodableNoPanic | src/animals_csv.rs:49-56 | A file whose rows all carry known literals cannot make the lookup panic. |
| AnimalsCsv.DecodableSuffix | src/animals_csv.rs:49-56 | That property holds for every suffix of the file. |
| AnimalsCsv.LookupTwice | src/main.rs:30-37 | A second lookup on the same reader sees only the lines after those the first consumed. |
| AnimalsCsv.FoundSecond | src/animals_csv.rs:38-62 | In a two-row file, the second animal is found after reading both rows. |
| AnimalsCsv.ModelsWellFormed | src/animals.rs:135-155 | The cow and snake models have distinct names and non-empty hyphen-free lists. |
| AnimalsCsv.SnakeThenCow | src/animals_csv.rs:38-62 | A scenario of the non-rewinding reader (not a run of `main`): on a file holding a cow row and then a snake row, the snake lookup finds the snake model. The cow lookup on the same reader then finds nothing, because the cow's row was already consumed. |
| Commands.RegisteredAfterAppend | src/commands.rs:31-40 | After appending an unregistered species, it is registered. |
| Commands.AliveAfterAppend | src/commands.rs:64-78 | After appending an individual whose name was not alive, it is alive. |
| Commands.CountKeyPositive | src/commands.rs:124-128 | A name keyed on some row counts at least one. |
| Commands.AliveHasPopulation | src/commands.rs:95-103 | A name that is alive has a positive count of living rows. |
| Commands.NotRegisteredAfterDelete | src/commands.rs:42-47 | After delete-all on the species table, the name is no longer registered. |
| Commands.Store.constructor | src/commands.rs:13-29 | The store holds the species and living-individual files, with their headers. |
| Commands.Store.AnimalDataRegistered | src/commands.rs:13-20 | Whether a fresh species lookup finds the name, or its error. |
| Commands.Store.AnimalAlive | src/commands.rs:22-29 | Whether a fresh living-individual lookup finds the name, or its error. |
| Commands.Store.CreateAnimal | src/commands.rs:31-40 | Appends the species row only when the name is not registered, after which it is registered. A registered name is "already exists" and changes nothing. |
| Commands.Store.DeleteAnimal | src/commands.rs:42-47 | Deletes all species rows of the name, then all living rows. Afterwards the name is neither registered nor has living rows. A failing step returns its error and leaves its file, and any later file, unchanged. |
| Commands.Store.ReadAnimal | src/commands.rs:49-63 | Describes the species found, or reports it missing, or returns the lookup's error; nothing changes. |
| Commands.Store.SpawnAnimal | src/commands.rs:64-78 | An unregistered name changes nothing. A registered one appends exactly one (name, sex) row. |
| Commands.Store.ReproduceAnimal | src/commands.rs:80-93 | A row is added only when the name is alive, has both sexes and is registered; the new row is (name, Male or Female). An error of either lookup or of the registration check is returned as an error. Otherwise nothing changes. |
| Commands.Store.KillAnimal | src/commands.rs:95-109 | When alive and registered, exactly the first living row of the name is removed, so the population drops by one, and the named predator is one of the species' predators. A failing lookup or delete-one returns an error. Otherwise nothing changes. |
| Commands.Store.FeedAnimal | src/commands.rs:111-123 | For a living registered name, the prey eaten is one of the species' preys; nothing changes. |
| Commands.Store.CountAnimal | src/commands.rs:124-128 | Reports the number of living rows of the name, or ReadFailed if a line does not read. |

## Left out

- File opening modes, temporary-file creation and the OS rename are not modelled as operations. Their failures appear only as the `tempOk`/`commitOk` flags of the delete engine and the store.
- A failing write on an append (`write_animal_alive_file`, `write_animal_data_file`, `write_animal_csv`, create and spawn) is not modelled: appends always succeed.
- A failing `headers()` call and a failing `seek` are not modelled; both are I/O errors of the csv crate.
- The csv crate's quoting, escaping, byte positions and UTF-8 checks are not modelled. A line is either a record or unreadable.
- The `regex` engine is not modelled; the single pattern is a character-level predicate.
- The exact message strings and `help()` are not modelled. Each command's reply is a datatype constructor that says which branch was taken.
- Console I/O is not modelled: `src/input_handler.rs`, `src/console_reader.rs`, `src/commands_handler.rs` and the prompting of `src/main.rs`.
- `ConsoleLogger` prints to the console and is not modelled; `TestLogger` is `Animals.Logger`.
- `Animal::reproduce` and `Animal::die` are `todo!()` and are not modelled.
- Randomness (`thread_rng`, `choose`, `gen_range`) is a nondeterministic choice with a membership guarantee.
- `kill_one_animal_alive`, `kill_all_animals_alive` and `delete_animal_data` are not part of this model. The commands use the delete-one and delete-all modes of `delete_animal_for_path` in their place.
- `reader_animals_alive`, `reader_animals_data` and the writers are not part of this model. The store opens a fresh reader on, or appends to, its in-memory file.
- CustomReaders.CustomReader.CountAnimal: the count is a `nat`, so the `i32` overflow past 2^31 − 1 records is not modelled.
- AliveCsv.CountAnimal: the same holds for the `i32` count.
- Commands.Store.CountAnimal: the same holds for the `i32` count.
- The `test_name`, `test_born` and `test_eat` tests of `src/animals.rs` expect the name "Cow", but `cow_model` builds "cow". The model follows the code, so those tests are not properties. `Animals.EatTest` states the message the code logs.
- The run of `main` is not modelled. `main.rs` writes the snake row through a buffered csv writer that is not flushed before the file is reopened for reading. The reader therefore sees only rows written by earlier runs, and it takes the first of them as its header. So the first run reads an empty file and the second run finds no record. `main.rs` never writes a cow. `AnimalsCsv.SnakeThenCow` and `AnimalsCsv.LookupTwice` model only the two lookups on one reader.
- Animals.Eat: `gen_range(0..len)` panics on an empty prey list in the source. Here a non-empty prey list is a precondition, not an error path.
- AnimalsCsv.ReadAnimal: an unknown class or sex literal in the matching row panics in the source. Here that is a precondition (`NoPanic`), not an error path.
- SharedCsv.DeleteAnimalForPath: a header without a `name` column panics in the source (`unwrap`). Here it is a precondition.
