# vpm utilities, modelled in Dafny

This project models the decision logic of `VpmUtils` in vpm, the package
manager for vvvv (`vpm/src/vpm/utils.cs`), and proves what that logic
promises. It covers four parts:

- **`GetMachineType`, the PE machine-type sniffer** (`pe_image.dfy`, module `PeImage`).
  - Up to 4096 bytes of the file are read into a zeroed buffer.
  - The little-endian Int32 at offset 60 is the pointer P to the PE header. This is the last field of the 64-byte DOS header.
  - The little-endian UInt16 at P + 4 is the result. This is the COFF `Machine` field, after the 4-byte PE signature.
  - The result is cast to `MachineType` without validation.
  - `BitConverter` is modelled with the two exceptions it throws. P + 4 wraps like C#'s unchecked `int` addition.
  - The method fills a real `array` and is proved equal to the pure function `Sniff`.
  - The lemmas state when the sniffer succeeds and what it returns. They also give the buffer's properties and a write-then-read round trip.
- **`PromptYayOrNay` and `ConfirmContinue`** (`prompt.dfy`, module `Prompt`).
  - The console is a sequence of `ReadLine` results, with `None` for null. What `WriteLine` prints is an output sequence.
  - The loop, with its `first` flag, is proved against the functions `Decision` and `Transcript`.
  - The lemmas say which line decides, both ways, and when the question is printed.
  - "Nay" contains a `y`, so it is read as yes.
- **`IsAliasExisting` and `IsPackExisting`** (`packs.dfy`, module `Packs`).
  - The directory listing of the packs folder is an input of full paths.
  - A directory's name is its last path component, after trailing separators are trimmed and the path is split.
  - Names are compared with ASCII case folding.
  - The pack name is tried first, then each alias in order.
- **`CopyDirectory`** (`directory_copy.dfy`, module `DirectoryCopy`; `directory_copy_properties.dfy`, module `DirectoryCopyProperties`).
  - The source directory is an input tree: `None` when it does not exist.
  - The effects are a trace of `CreateDirectory`, `Progress` and `CopyFile` actions. Paths are sequences of components.
  - `WildcardPattern.IsMatch` is an uninterpreted function parameter.
  - `CopyContents` (the directory) and `CopyKeptSubdirs` (its subdirectory loop) are mutually recursive and call the file loop `CopyKeptFiles`. They are proved equal to `CopyTree`, `CopySubdirs` and `CopyFiles`, the pieces `CopyTree` is built from. `CopyDirectory` adds the missing-source check.
  - The lemmas show:
    - the two `Where` passes keep exactly the kept entries, in order;
    - every action stays inside the source and destination trees, along kept names only;
    - directories are created only where none existed;
    - the files of a directory come before anything inside its subdirectories;
    - exactly the kept top-level files are copied under their own names;
    - the recursion happens: each kept subdirectory's copy appears as one block of its parent's trace, and a file at any depth is copied to the same relative path exactly when it exists and every name on its path is kept;
    - with a callback, every file at every depth is reported right before it is copied, and each kept subdirectory of the copied directory is reported before anything happens inside it.

`wrappers.dfy` holds the `Option` and `Result` types.

Two behaviours of `GetMachineType` worth knowing:

- Files shorter than 64 bytes are not rejected. A file of up to 60 bytes reads as P = 0 and decodes the bytes at offsets 4 and 5 (`PeImage.ShortFileUsesPointerZero`). For files of 61-63 bytes, the pointer is built from the bytes the file has, padded with zeros.
- An unknown machine code is not rejected either. It comes back as `Unnamed(code)`.

## Model

| member | source | states |
|---|---|---|
| PeImage.FromCode | vpm/src/vpm/utils.cs:16-19 | the cast gives the enum value whose code is the input; it is one of the four named members exactly for 0x0000, 0x014c, 0x0200, 0x8664, and otherwise keeps the raw code |
| PeImage.FromCodeOfCode | vpm/src/vpm/utils.cs:16-19 | every enum value is the cast of its own code, so the cast loses nothing |
| PeImage.ToSigned32 | vpm/src/vpm/utils.cs:33 | the signed Int32 agrees with the unsigned 32-bit pattern modulo 2^32 |
| PeImage.AddInt32 | vpm/src/vpm/utils.cs:34 | `P + MACHINE_OFFSET` is the sum modulo 2^32, and equals the true sum whenever that fits in an Int32 |
| PeImage.CheckRead | vpm/src/vpm/utils.cs:33-34 | BitConverter's bounds checks pass exactly when the `size` bytes from `start` lie inside the buffer; ArgumentOutOfRange exactly when `start` is negative or past the last byte, ArrayPlusOffTooSmall exactly when `start` is a valid index with fewer than `size` bytes left |
| PeImage.ToUInt16 | vpm/src/vpm/utils.cs:34 | succeeds exactly when two bytes fit at `start`, then returns their little-endian value; a failure carries the start index |
| PeImage.ToInt32 | vpm/src/vpm/utils.cs:33 | succeeds exactly when four bytes fit at `start`, then returns the Int32 whose pattern is their little-endian value; a failure carries the start index |
| PeImage.Fill | vpm/src/vpm/utils.cs:27-31 | the buffer has 4096 bytes: byte i of the file where the file has one, 0 elsewhere |
| PeImage.Decode | vpm/src/vpm/utils.cs:33-35 | a successful decode yields a well-formed enum value |
| PeImage.GetMachineType | vpm/src/vpm/utils.cs:23-36 | filling the array and decoding it gives exactly `Sniff` of the file: CannotOpen when it cannot be opened |
| PeImage.SniffOutcome | vpm/src/vpm/utils.cs:33-35 | the offset-60 read never fails and yields P; the sniff succeeds exactly when P is in -4..4090, and then returns the cast of the UInt16 at P + 4; every failure is the BitConverter error of the read at the wrapped P + 4 |
| PeImage.SniffIgnoresTail | vpm/src/vpm/utils.cs:27-31 | bytes after the first 4096 never change the result |
| PeImage.SniffZeroPadding | vpm/src/vpm/utils.cs:27-31 | padding a file with zero bytes never changes the result |
| PeImage.ShortFileUsesPointerZero | vpm/src/vpm/utils.cs:27-35 | a file of at most 60 bytes is not rejected: P reads as 0 and the result is the cast of the bytes at offsets 4 and 5 |
| PeImage.UInt16RoundTrip | vpm/src/vpm/utils.cs:34 | the little-endian reading of the two bytes written for a UInt16 gives it back |
| PeImage.Int32RoundTrip | vpm/src/vpm/utils.cs:33 | the signed little-endian reading of the four bytes written for an Int32 gives it back |
| PeImage.SniffImageRoundTrip | vpm/src/vpm/utils.cs:23-36 | writing pointer P at offset 60 and a code at P + 4 makes the sniffer return the cast of that code, for every accepted P whose Machine field does not overlap offsets 60-63 |
| PeImage.ExampleX64 | vpm/src/vpm/utils.cs:18 | pointer 128 and the bytes 64 86 at offsets 132-133 give x64 |
| Prompt.DecisionIsFirstAnswer | vpm/src/vpm/utils.cs:53-62 | the verdict is b exactly when some line is non-null, classifies as b, and every earlier line is null or no answer |
| Prompt.BannerUntilFirstLine | vpm/src/vpm/utils.cs:45-63 | the question (and a non-empty note) is printed before every read up to and including the first non-null line, and never after it |
| Prompt.NoBannerOnceCleared | vpm/src/vpm/utils.cs:48-63 | once `first` is cleared nothing more is printed |
| Prompt.PromptYayOrNay | vpm/src/vpm/utils.cs:43-65 | the loop returns the verdict of the first answering line and prints exactly the transcript of the reads |
| Prompt.ConfirmContinue | vpm/src/vpm/utils.cs:67-73 | quiet mode continues without printing; otherwise a yes continues, a no cleans up and exits, after the prompt's transcript |
| Prompt.NayIsYes | vpm/src/vpm/utils.cs:55-58 | the answer "Nay" is read as yes, because it contains a y |
| Packs.TrimEnd | vpm/src/vpm/utils.cs:81 | the result is a prefix of the path that does not end in the separator, and only separators were removed |
| Packs.Split | vpm/src/vpm/utils.cs:82 | there is at least one piece and no piece holds the separator |
| Packs.JoinSplit | vpm/src/vpm/utils.cs:82 | joining the pieces with the separator gives the string back |
| Packs.LastPieceIsSuffix | vpm/src/vpm/utils.cs:82-83 | the last piece is the suffix after the last separator, or the whole string when there is no separator |
| Packs.LastComponentIsFinalName | vpm/src/vpm/utils.cs:80-83 | the compared name is the text after the last separator of the trimmed path and holds no separator |
| Packs.IsAliasExisting | vpm/src/vpm/utils.cs:75-90 | returns true exactly when some listed directory's last component equals the name, ignoring case |
| Packs.IsPackExisting | vpm/src/vpm/utils.cs:92-106 | an existing name wins with `matched = name`; otherwise it is found exactly when some alias exists, and `matched` is the first existing alias; when nothing is found `matched` is "" |
| DirectoryCopy.AnyMatchesSome | vpm/src/vpm/utils.cs:151 | `patterns.Any(IsMatch)` holds exactly when some pattern matches the name |
| DirectoryCopy.FilterSound | vpm/src/vpm/utils.cs:146-160 | every entry the filters keep matches some `match` pattern when `match` is given, and no `ignore` pattern when `ignore` is given |
| DirectoryCopy.FilterComplete | vpm/src/vpm/utils.cs:146-160 | every listed entry that passes both tests is kept |
| DirectoryCopy.FilterKeepsOrder | vpm/src/vpm/utils.cs:146-160 | the kept entries are a subsequence of the listing, in listing order |
| DirectoryCopy.FilterMember | vpm/src/vpm/utils.cs:146-160 | every kept entry is one of the listed entries |
| DirectoryCopy.CopyKeptFiles | vpm/src/vpm/utils.cs:185-190 | the file loop emits, for each kept file in order, its report (when there is a callback) and then its copy to the same name in the destination |
| DirectoryCopy.CopyContents | vpm/src/vpm/utils.cs:136-198 | copying an existing directory emits exactly `CopyTree`: create the destination if it is missing, then the files, then the subdirectories |
| DirectoryCopy.CopyKeptSubdirs | vpm/src/vpm/utils.cs:192-198 | the subdirectory loop emits, for each kept subdirectory in order, its report and then its recursive copy into the destination subdirectory of the same name |
| DirectoryCopy.CopyDirectory | vpm/src/vpm/utils.cs:128-199 | a missing source fails with DirectoryNotFound before any action; otherwise the copy is `CopyTree` |
| DirectoryCopyProperties.FilterIsTwoPasses | vpm/src/vpm/utils.cs:167-183 | the `match` pass followed by the `ignore` pass keeps exactly what one Kept test per entry keeps, in the same order |
| DirectoryCopyProperties.FilesWellPlaced | vpm/src/vpm/utils.cs:185-190 | each copy of a kept file goes from the source directory to the same name in the destination directory |
| DirectoryCopyProperties.TreeWellPlaced | vpm/src/vpm/utils.cs:128-199 | every action of a copy lies inside the source or destination tree along kept names only, copies each file to the same relative path, creates only directories that did not exist, and reports only to a callback |
| DirectoryCopyProperties.SubdirsWellPlaced | vpm/src/vpm/utils.cs:192-198 | the same placement holds for the recursive copies of the kept subdirectories |
| DirectoryCopyProperties.NoProgressWithoutCallback | vpm/src/vpm/utils.cs:188 | without a callback nothing is reported |
| DirectoryCopyProperties.FilesBeforeSubdirectories | vpm/src/vpm/utils.cs:185-198 | no file directly inside the directory is reported or copied after anything has happened in one of its subdirectories |
| DirectoryCopyProperties.CopyFilesCopies | vpm/src/vpm/utils.cs:185-190 | the file loop copies a name to the same name exactly when that name is among its files |
| DirectoryCopyProperties.DirectCopies | vpm/src/vpm/utils.cs:167-190 | a file directly inside the source is copied to the same name in the destination exactly when it is listed and passes both filters |
| DirectoryCopyProperties.SubdirCopied | vpm/src/vpm/utils.cs:193-198 | every listed and kept subdirectory is copied, as one uninterrupted block of the parent's trace, into the destination subdirectory of the same name, right after its report when there is a callback |
| DirectoryCopyProperties.SubdirBlock | vpm/src/vpm/utils.cs:193-198 | in the subdirectory loop, the recursive copy of the j-th kept subdirectory is a block right after that subdirectory's report |
| DirectoryCopyProperties.CopiedIfKept | vpm/src/vpm/utils.cs:185-198 | a file that exists at relative path `rel` of the source tree, with every name on the path kept, is copied to `rel` below the destination |
| DirectoryCopyProperties.KeptIfCopied | vpm/src/vpm/utils.cs:185-198 | a file copied from `rel` below the source to `rel` below the destination exists there in the source tree, with every name on its path kept |
| DirectoryCopyProperties.FileCopied | vpm/src/vpm/utils.cs:185-198 | at every depth, a file is copied to the same relative path exactly when it exists in the source tree and every name on its path is kept |
| DirectoryCopyProperties.FilesAnnounced | vpm/src/vpm/utils.cs:185-190 | with a callback, each copy of the file loop comes right after the report of that file |
| DirectoryCopyProperties.TreeAnnounced | vpm/src/vpm/utils.cs:128-199 | with a callback, every copy at every depth comes right after the report of the file it copies |
| DirectoryCopyProperties.SubdirsAnnounced | vpm/src/vpm/utils.cs:192-198 | the same holds for the recursive copies of the kept subdirectories |
| DirectoryCopyProperties.DirectoriesReportedBeforeEntered | vpm/src/vpm/utils.cs:192-198 | with a callback, nothing is created, reported or copied inside a subdirectory before that subdirectory is reported |
| DirectoryCopyProperties.SubdirsReportedBeforeEntered | vpm/src/vpm/utils.cs:192-198 | the same holds across the loop over the kept subdirectories |

## Left out

- `CloneGit` (LibGit2Sharp) and `ParseAndValidateXmlFile` (.NET XML validation): library calls with no logic of their own.
- `CleanUp` and `Environment.Exit`: `ConfirmContinue` returns `CleanUpAndExit` instead of deleting the temporary directory and ending the process.
- The ambient arguments: the quiet flag of `ConfirmContinue` is a parameter. The packs folder is derived from the vvvv executable path (line 77); its listing is a parameter (`packDirs`) of `IsAliasExisting` and `IsPackExisting`.
- File and console I/O: the file contents, the console lines and the directory trees are inputs; what is written, created or copied is an output trace. File contents are not modelled, and I/O exceptions other than a missing source or an unopenable file are not modelled.
- `Stream.Read` is assumed to deliver every available byte up to 4096. `BitConverter` is assumed to run on a little-endian host.
- `WildcardPattern.IsMatch` is an uninterpreted function. `Path.GetFullPath` is the identity: the listing is given as full paths. The culture-aware case-insensitive comparison is ASCII case folding.
- Prompt.PromptYayOrNay: the input is finite. When it runs out without an answer, the model returns None. The program would instead keep reading (`ReadLine` keeps returning null at end of input).
- DirectoryCopy.CopyDirectory: `existing` is the set of destination directories that exist before the copy. Directories the copy creates are not added to it. This is exact when sibling names in the source are distinct, as in a file system; the `Node` type does not enforce that.
- DirectoryCopy.CopyDirectory: the source tree is a snapshot. A destination inside the source, which the copy would see growing, is not modelled.
- DirectoryCopy.Filter: each entry gets one Kept test instead of two eager `Where(...).ToArray()` passes. `DirectoryCopyProperties.FilterIsTwoPasses` proves the results equal. Because `IsMatch` has no effects, the order of its calls is not observable.
- PeImage.SniffImageRoundTrip: proved only for pointers P outside 55..59. For those pointers the Machine field overlaps the pointer's own bytes at offsets 60-63, so an arbitrary code cannot be written there.
- PeImage.ShortFileUsesPointerZero: stated for files of at most 60 bytes, not for all files under 64 bytes. A file of 61-63 bytes supplies part of the pointer itself.
