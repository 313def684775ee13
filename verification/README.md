# NcFTP: transfers, paths and bookkeeping, proved

NcFTP is an FTP client written in C. This project models the parts of it that compute something:
how text is translated on its way in and out (section 3.1.1.1 of RFC 959), how an interrupted upload is
resumed, how a data connection is opened, used, aborted and closed, how paths are brought into one form, and
the structures around these: the listing cache, the sorted file list, the tree walk, the line reader, the
command history and the bookmarks file. Loops are loops here, buffers are arrays and records are classes;
each method is proved against a specification function, and the specification functions are then related to
one another. Sockets, files, clocks and the server are parameters or nondeterministic choices, so every
statement holds for all their behaviours.

| file | what it models |
|---|---|
| `Basics.dfy`, `Bytes.dfy`, `Errors.dfy`, `LocalFiles.dfy` | octets, result codes, files that can fail |
| `Eoln.dfy` | the end-of-line rule: encoding, decoding, and how they undo each other |
| `AsciiDownload.dfy` | the decoder of `FTPGetOneF` with its carried CR and 512-octet buffer |
| `AsciiUpload.dfy` | the encoder of `FTPPutOneF` with its carried CR |
| `AsciiResume.dfy` | `FTPLocalASCIIFileSize`, `FTPASCIILocalFileSeek` |
| `Connection.dfy`, `Transfer.dfy`, `ResumeUpload.dfy` | data connection, transfer commands, resume by best guess |
| `SpooledUpload.dfy` | the spooler's uploads, attempt after attempt |
| `Paths.dfy`, `PathCompress.dfy` | the walk over path components, and `CompressPath`/`PathCat` in place |
| `LsCache.dfy`, `FileInfoList.dfy`, `TreeWalk.dfy`, `LineReader.dfy`, `History.dfy` | the structures |
| `BookmarkText.dfy`, `BookmarkNumbers.dfy`, `Bookmarks.dfy`, `BookmarkFile.dfy` | the bookmarks file, written and read back |

## Where the code does less than it is meant to

The code is modelled as it is. Where it falls short of what its comments or documentation say, the exact
condition under which it does what it should is proved, and an input is given on which it does not.

- ASCII upload stops when a read returns nothing but a CR (`libncftp/io_put.c:505-513`).
  `AsciiUpload.AsciiUploadRightIff` says when that loses something. For a regular file it does exactly when the
  length is 1 more than a positive multiple of 256 and the file ends in two CRs: one line end is missing
  (`AsciiUpload.RegularFileUpload`, `AsciiUpload.LostLineEnd`).
- The comment at `libncftp/io_put.c:514` asks for a transfer buffer of twice the block size; a block of n
  octets can need 2n+1 (`AsciiUpload.BlockCodeBoundIsTight`).
- "Same as remote" compares sizes, and the one computed for a local text file leaves out a line end for each CR
  without an LF. A file that is text by its name only is measured as it lies on the disk. So the message is right
  exactly for binary files, and for text without bare CRs that was measured as text or has no bare LFs
  (`ResumeUpload.SameIsRightIff`, `ResumeUpload.OneCRLooksComplete`, `ResumeUpload.TextByNameLooksComplete`). A local
  text file that cannot be measured is the same as a remote one of unknown size, a missing one included
  (`ResumeUpload.UnmeasuredIsSame`).
- When a binary upload resumes and `lseek` fails, nothing notices, and the whole file goes to the restart
  offset (`libncftp/io_put.c:366-368`; `ResumeUpload.SeekLost`, `ResumeUpload.UploadMeans`,
  `ResumeUpload.LostSeek`).
- The replies to the REST that takes back a trial offset and to the REST 0 before APPE are not looked at
  (`libncftp/io_util.c:328`, `libncftp/rcmd.c:619`). That is harmless on servers that take a marker for the next
  command only; on one that keeps markers, `ResumeUpload.UploadMisplacedIff` says by its answers when it is not
  (`Transfer.StuckMarker`).
- `OpenDataConnection` can succeed with a socket that is neither connected nor listening: with a limit of no
  PASV attempts, or when all of them fail in fallback mode although PASV has worked before
  (`Connection.FTPConnection.OpenDataConnection`, `Connection.FTPConnection.IdleSuccess`).
- `CompressPath` makes a relative path absolute when nothing but a slash follows its leading `./`, as in
  `.//x` (`PathCompress.CompressedRightIff`, `PathCompress.DotSlashSlash`). A backslash separates components
  even without DOS compatibility (`Paths.IsSlash`).
- `AddFileInfo` does not touch the sort tags, and a sort request that finds them set trusts them. Starting
  from true tags, as every new list has, all operations keep them true except the adding of an entry that
  comes before the last one (`FileInfoList.SortRun`, `FileInfoList.List.AppendKeepsTags`,
  `FileInfoList.UnsortedDespiteTags`).
- A line that just fills the buffer of `BufferGets` is followed by an empty one that is not in the stream
  (`LineReader.LinesRestored`, `LineReader.FullLineQuirk`).
- The comment at `libncftp/ftw.c:191-193` speaks of an error, but a directory that cannot be opened, the start
  directory included, is passed over and the walk succeeds (`TreeWalk.FtwInfo.FtwTraverse`).
- The time of the last call is written in decimal and read in hexadecimal; it survives exactly when it has one
  digit, or is -1 (`BookmarkNumbers.LastCallSurvives`, `BookmarkNumbers.TenBecomesSixteen`). A bookmark
  directory or comment survives exactly when it fits the 128-character token buffer and, escaped, the
  256-character line buffer (`BookmarkText.FieldSurvives`, `BookmarkFile.LongDirectoryLost`). A line whose last
  field is empty counts as one of version 7 instead of 8.

## Model

| member | source | states |
|---|---|---|
| Eoln.EncodedLength | libncftp/c_size.c:104-131 | the encoded length of any text is its length, plus one for each LF without a CR before it, plus one for each CR without an LF after it |
| Eoln.EncodeAtMostDoubles | libncftp/io_put.c:527-549 | encoding at most doubles a text, with an octet to spare when it neither starts with LF nor ends in CR |
| Eoln.EncodeSplit | libncftp/io_put.c:502-559 | encoding commutes with any cut that does not part a CR from its LF |
| Eoln.EncodeSplitCRLF | libncftp/io_put.c:516-519 | at a cut between CR and LF the LF is dropped, for its line end has been sent |
| Eoln.EncodePrefix | libncftp/io_put.c:485-577 | what is sent for a prefix of the file is a prefix of what is sent for the file, and when it is all of it |
| Eoln.EncodeIsNetAscii | libncftp/io_put.c:514-576 | no encoding holds a CR that is not followed by LF, nor a lone LF |
| Eoln.DecodeMark | libncftp/io_get.c:540-633 | LF, CR LF and CR CR LF are one line end, a CR before anything else one, CR CR before anything else two |
| Eoln.DecodeRest | libncftp/io_get.c:662-687 | at the end of the stream CR is one line end and CR CR two; any other octet is kept |
| Eoln.DecodeEncode | libncftp/io_get.c:546-632 | for every local line end, decoding an encoding gives the text with CR LF, CR and LF each turned into that line end |
| Eoln.TransferRoundTrip | libncftp/io_get.c:546-632 | with LF as line end a file comes back from upload and download exactly when it has no CR |
| Eoln.TransferRoundTripCRLF | libncftp/io_get.c:546-632 | with CR LF as line end it does exactly when every line end in it is CR LF |
| Eoln.ReceiveRoundTrip | libncftp/io_put.c:514-576 | encoding undoes decoding exactly on text whose line ends are all CR LF |
| AsciiDownload.Writer.Flush | libncftp/io_get.c:508-526 | the buffer goes to the file, or the disk is full and the file holds as much as fits |
| AsciiDownload.Writer.PutEoln | libncftp/io_get.c:602-633 | one line end, or two, is added to the output without overrunning the 512-octet buffer |
| AsciiDownload.HaveCharAfterCRCR | libncftp/io_get.c:579-596 | after CR CR: an LF makes it one line end, anything else two, the end of the block carries it on |
| AsciiDownload.HaveCharAfterCR | libncftp/io_get.c:566-597 | after CR: an LF belongs to it, another CR is looked behind, anything else stays to be decoded |
| AsciiDownload.ScanHead | libncftp/io_get.c:546-600 | at the loop head at most one of cr and crcr is set and no second line end is pending; what is written, carried and unread still decodes to the same text |
| AsciiDownload.TranslateStep | libncftp/io_get.c:503-655 | one turn of the loop keeps that balance, and makes progress |
| AsciiDownload.TranslateBlock | libncftp/io_get.c:503-655 | one received block, whatever follows it, keeps that balance and ends with an empty buffer |
| AsciiDownload.WriteCarried | libncftp/io_get.c:662-687 | a CR carried past the end of the stream becomes one line end, CR CR two |
| AsciiDownload.ReceiveAscii | libncftp/io_get.c:432-687 | for every cut of the stream into reads and every ending, the file receives exactly the decoding of what arrived, cut short only by a full disk |
| AsciiUpload.PutBlock | libncftp/io_put.c:85-131 | over any sequence of partial writes, time-outs, failures and cancellations a block is sent whole, or a proper prefix of it and the error told |
| AsciiUpload.BlockStep | libncftp/io_put.c:485-577 | translating block by block with one CR in hand is translating the whole |
| AsciiUpload.BlockCodeBound | libncftp/io_put.c:514-549 | n octets become at most 2n+1 |
| AsciiUpload.BlockCodeBoundIsTight | libncftp/io_put.c:514-526 | for every block size some block needs all 2n+1, against the comment |
| AsciiUpload.TranslateLoop | libncftp/io_put.c:531-549 | the loop fills the buffer with the encoding of the octets before srclim, looking one octet past them only behind a CR |
| AsciiUpload.TranslateBlock | libncftp/io_put.c:502-549 | a block whose last CR is held back fills the buffer with exactly its share of the encoding |
| AsciiUpload.SendBlock | libncftp/io_put.c:500-559 | sent so far is the encoding of all blocks but a CR in hand, also after this block |
| AsciiUpload.SendFinal | libncftp/io_put.c:561-576 | the CR in hand becomes the last line end |
| AsciiUpload.SendBlocks | libncftp/io_put.c:485-559 | the loop ends at the end of the file, at a lone CR, or at an error, with the encoding of what was read on its way |
| AsciiUpload.SendAscii | libncftp/io_put.c:483-577 | for every way the file is cut into reads, a prefix of its encoding is sent; on success it is exactly what the blocks read come to, an early stop included |
| AsciiUpload.AsciiUploadRightIff | libncftp/io_put.c:485-577 | that is all of the encoding exactly unless the reads end at a lone CR and something is lost there |
| AsciiUpload.LosesTextIff | libncftp/io_put.c:485-577 | for a regular file that depends on the length and the last two octets of the rest; a file of any kind loses nothing without a CR |
| AsciiUpload.UploadCompleteIff | libncftp/io_put.c:505-513 | a finished upload is complete exactly unless the loop stopped at a lone CR behind a CR, or before more than one LF |
| AsciiUpload.FullReadsUnique | libncftp/io_put.c:485-499 | the only way the loop reads a regular file is in full blocks up to the last |
| AsciiUpload.RegularFileUpload | libncftp/io_put.c:485-577 | read 256 octets at a time, a file is sent wrongly exactly when its length is 1 mod 256, over 1, and it ends in CR CR |
| AsciiUpload.LostLineEnd | libncftp/io_put.c:505-513 | 255 letters and two CRs are such a file |
| AsciiResume.LocalAsciiFileSize | libncftp/c_size.c:79-137 | for every read size, the result plus the number of bare CRs is the encoded length, or the file could not be read |
| AsciiResume.AsciiLocalFileSeek | libncftp/io_put.c:24-81 | for every read size, it succeeds exactly when some offset has no CR before it and encodes to the octets to skip, moves there, and otherwise restores the position |
| AsciiResume.NoSuchOffset | libncftp/io_put.c:45-70 | a CR, the end of the file or an LF that would overshoot settle that no offset matches |
| AsciiResume.ResumeSplice | libncftp/io_put.c:345-365 | the octets already sent followed by the encoding of the rest are the encoding of the file |
| AsciiResume.SkipsToUnique | libncftp/io_put.c:24-81 | at most one local offset matches a network offset |
| AsciiResume.ResumableOffsets | libncftp/io_put.c:24-81 | a file without CR can be resumed from every network offset but those between a CR and its LF |
| Connection.FTPConnection.CloseDataConnection | libncftp/ftp.c:657-689 | afterwards the data socket is closed and no socket is left open |
| Connection.FTPConnection.JudgeConnect | libncftp/ftp.c:1085-1160 | whether a failed connect is tried again, given up or answered by PORT, and what becomes of the socket and of hasPASV |
| Connection.FTPConnection.PassiveAttempt | libncftp/ftp.c:1064-1175 | one turn sends one PASV and leaves at most one socket open; it goes through exactly when the connect succeeds, and to PORT exactly when PASV is refused in fallback mode |
| Connection.FTPConnection.TryPassive | libncftp/ftp.c:1064-1175 | at most the allowed number of PASV commands, and exactly how many; when it goes through, when to PORT after a refusal, and when back to tryPort2: exactly when all connects fail in fallback mode |
| Connection.FTPConnection.OpenOnce | libncftp/ftp.c:1008-1202 | one pass from the label tryPort2: it is jumped back to exactly when all PASV attempts allowed have failed in fallback mode; otherwise at most the data socket is open, and its state is known |
| Connection.FTPConnection.OpenDataConnection | libncftp/ftp.c:972-1202 | for every network: when it succeeds, exactly; how many PASV and PORT commands are sent; what is known of PASV afterwards; no socket leaked; listening by PORT or connected by PASV on success, but for one exactly stated case |
| Connection.FTPConnection.PortAfterRefusal | libncftp/ftp.c:1070-1082 | a PASV refused in fallback mode, with one attempt allowed, is followed by one PORT and a listening socket |
| Connection.FTPConnection.IdleSuccess | libncftp/ftp.c:1105-1202 | that case reached: one attempt allowed, PASV known to work, and its connect timing out |
| Connection.FTPConnection.AcceptDataConnection | libncftp/ftp.c:1207-1273 | it fails exactly after a PORT that is not accepted, or is from a wrong address or port where that matters; on success one connected socket remains, on failure none |
| Transfer.SetStartOffset | libncftp/ftp.c:695-739 | by the server's answer: success leaves the server at the offset, a refusal at none, or at the old one if it keeps markers; what becomes of hasREST |
| Transfer.SetTransferType | libncftp/c_type.c:13-55 | TYPE is sent exactly for another type than the current one; it succeeds exactly when that is accepted, and then the current type is the letter sent; when nothing is sent, the server is as before |
| Transfer.TypeLetters | libncftp/c_type.c:23-45 | which letters ask for which of the three types, and that there are no others |
| Transfer.CheckForRestartModeAvailability | libncftp/io_util.c:320-332 | by the server's answers, where the trial offset and its taking back leave the connection; nothing is sent when REST is known to work or not |
| Transfer.TrialStuckIff | libncftp/io_util.c:320-332 | the trial offset is left behind exactly when it is accepted and taking it back refused, by a server that keeps markers |
| Transfer.EndDataCmd | libncftp/rcmd.c:837-882 | the data connection is closed; the remote file has grown by a part of what was sent, also when canceled, and by all of it on success, which an undisturbed transfer is |
| Transfer.StartCommand | libncftp/rcmd.c:584-643 | it succeeds exactly when the server accepts the last command, which is APPE after REST 0 if STOR is refused at an offset; the remote file is then what that command makes of it, and otherwise unchanged or shortened unless the command met a wrong marker |
| Transfer.SendTransferCommand | libncftp/rcmd.c:565-643 | the same with REST before it: a refused REST turns STOR into APPE; with an offset it succeeds exactly when the first transfer command is accepted, or REST was and the APPE behind a refused STOR is |
| Transfer.MisplacedIff | libncftp/rcmd.c:565-643 | the command sent last meets a wrong marker exactly when one was left over and is not replaced, or a server that keeps markers refuses STOR at the offset and then REST 0 |
| Transfer.WellPlacedIsReady | libncftp/rcmd.c:565-643 | with the right marker the accepted command leaves the remote file ready: kept for APPE, emptied for STOR, cut to the offset for STOR at one |
| Transfer.StuckMarker | libncftp/io_util.c:328 | a run of both on a server that keeps the trial offset: STOR, meant to overwrite three octets, leaves the first |
| Transfer.TryToStart | libncftp/rcmd.c:562-650 | it succeeds exactly when the data connection opens and is accepted and the commands are taken; a half-started transfer leaves no socket but the data socket |
| Transfer.StartDataCmd | libncftp/rcmd.c:529-663 | it succeeds exactly when the type can be set, the data connection comes about and the commands are taken; a failed start leaves the connection closed, a successful one open and connected, in the type asked for; the remote file is what the command sent last makes of it |
| Transfer.AbortDataTransfer | libncftp/rcmd.c:707-832 | by the course of the exchange: whether the transfer counts as canceled, exactly; canceling is off again, and the connection is closed unless memory ran out, exactly when |
| Transfer.RunTransfer | libncftp/rcmd.c:529-882 | start, perhaps abort, end: closed, unconnected and nothing left open, against any server; success means that the file has what was sent behind what was opened, and an undisturbed transfer succeeds exactly when it starts |
| ResumeUpload.SendBinary | libncftp/io_put.c:580-602 | the rest of the file is sent, or a prefix of it and an error |
| ResumeUpload.SameIsRightIff | libncftp/io_put.c:204-310 | "same as remote" said of a partial remote file, the local one measured, is right exactly for binary files and text without bare CRs that was measured as text or has no bare LFs |
| ResumeUpload.UnmeasuredIsSame | libncftp/io_put.c:204-310 | when the local text cannot be measured, "same as remote" is said exactly if the remote size is not known either, and the local file not newer |
| ResumeUpload.OneCRLooksComplete | libncftp/io_put.c:297-310 | a file of one CR is taken for sent when one octet of two has arrived |
| ResumeUpload.TextByNameLooksComplete | libncftp/io_put.c:204-238 | a file without CRs that is text by its name only is taken for sent when four octets of six have arrived |
| ResumeUpload.Position | libncftp/io_put.c:330-384 | offset, command and restart offset for each decision: what the local file is positioned at matches what the remote one holds, or everything is sent from the start, or an lseek failed unnoticed |
| ResumeUpload.LostSeek | libncftp/io_put.c:366-368 | a run of it in which that happens |
| ResumeUpload.StartCompletes | libncftp/io_put.c:292-430 | from such a start the opened remote file and the rest of the local one make the whole, unless the lseek was lost |
| ResumeUpload.SendData | libncftp/io_put.c:483-603 | binary or text, a prefix of the rest of the file as it is on the network is sent; on success it is exactly what the data loop makes of the reads |
| ResumeUpload.SendAndEnd | libncftp/io_put.c:483-630 | the remote file grows by a prefix of that, also when the user cancels; on success by exactly what the data loop makes of the reads |
| ResumeUpload.UploadMisplacedIff | libncftp/io_put.c:212-430 | an upload that finds no marker is misplaced exactly when, on a server that keeps markers, the trial offset is stuck and not replaced, or STOR at an offset and then REST 0 are refused |
| ResumeUpload.SendFrom | libncftp/io_put.c:382-677 | from a positioned local file on: on success the remote file is what the server opened and what the data loop sends behind it; a misplaced command apart, it never holds anything else than a beginning of what was and is sent |
| ResumeUpload.UploadMeans | libncftp/io_put.c:136-678 | for a well placed upload to a partial file that comes to this: it stays partial, and success means complete exactly unless the text loop stopped at a loss, for a regular file by length and end; with a lost lseek, success leaves the old octets and the whole file |
| ResumeUpload.ChosenRight | libncftp/io_put.c:292-311 | what is chosen: skipped if not newer and of equal size, or both sizes unknown; afresh if newer, or if the remote file is larger or of unknown size; otherwise resumed |
| ResumeUpload.AfreshLeaves | libncftp/io_put.c:369-384 | a successful upload afresh leaves exactly what the data loop sends, whatever the remote file was |
| ResumeUpload.PutOneF | libncftp/io_put.c:136-678 | for every server, keeping markers or not, every refusal, loss, time-out and cancellation: by newness and the two sizes, whether it is skipped and where it starts; what it leaves, for partial remote files and others; in which type; undisturbed, with every reply heard, it succeeds exactly when nothing stands in the way of its start |
| SpooledUpload.AttemptSettles | libncftp/io_put.c:136-678 | on a server that takes markers for one command only, what PutOneF promises comes to this: a partial remote file stays partial; success means complete for binary files, files without CR and regular files that do not end in two CRs; when "same as remote" is right |
| SpooledUpload.TryItem | sh_util/ncftpbatch.c:1147-1310 | an attempt on the open or a new connection, with the local file opened anew, keeps a remote file resumable, and settles the item if nothing hinders it |
| SpooledUpload.SpoolUpload | sh_util/ncftpbatch.c:1482-1603 | over any number of attempts, however they fail, the remote file stays a beginning of what is sent, and the attempt that settles the item means what it says; the first unhindered attempt is the last |
| Paths.ComponentsSplit | libncftp/u_pathcat.c:111-177 | the components of two paths joined by a slash are the components of both |
| Paths.ComponentsOfJoin | libncftp/u_pathcat.c:111-177 | joining and splitting proper components undo each other |
| Paths.OneComponent | libncftp/u_pathcat.c:111-177 | a text with neither slash nor backslash is one component, or none if empty or "." |
| Paths.NoSlashInside | libncftp/u_pathcat.c:111-177 | no component holds either of them, and a path is absolute exactly when it starts with one |
| Paths.WalkSettles | libncftp/u_pathcat.c:178-231 | the walk ends with no ".." behind another component, and none at all in an absolute path |
| Paths.WalkPop | libncftp/u_pathcat.c:178-231 | removing a component and the ".." behind it does not change the walk |
| Paths.CanonicalComponents | libncftp/u_pathcat.c:56-233 | the components of a canonical path are the outcome of the walk |
| Paths.CanonicalIdempotent | libncftp/u_pathcat.c:56-233 | compressing twice is compressing once |
| Paths.CanonicalDecides | ncftp/ls.c:551-553 | two absolute paths share a cache key exactly when they walk to the same place |
| Paths.CanonicalComposes | libncftp/u_pathcat.c:237-295 | going to a and then to b is going to a/b |
| Paths.CanonicalShorter | libncftp/u_pathcat.c:56-233 | a canonical path is never longer than what it stands for |
| PathCompress.FirstPassRenders | libncftp/u_pathcat.c:111-177 | the first pass leaves the components joined by single slashes |
| PathCompress.FirstPassRightIff | libncftp/u_pathcat.c:111-177 | it keeps a path absolute or relative exactly when the path is absolute or no slash follows its leading dots |
| PathCompress.DotSlashSlash | libncftp/u_pathcat.c:111-177 | ".//x" is a path for which it does not |
| PathCompress.Squeeze | libncftp/u_pathcat.c:111-177 | the loop over source and destination, trailing slash included, computes the first pass |
| PathCompress.NextNode | libncftp/u_pathcat.c:185-196 | the scan for the next slash finds the end of the component it stands on |
| PathCompress.MoveDown | libncftp/u_pathcat.c:207-211 | the memmove takes out exactly the characters between two positions |
| PathCompress.PopKeepsWalk | libncftp/u_pathcat.c:178-231 | taking out a node and its ".." leaves a path with the same walk |
| PathCompress.PopMiddle | libncftp/u_pathcat.c:205-212 | a node and the ".." and slash behind it are taken out of the text |
| PathCompress.PopLast | libncftp/u_pathcat.c:213-223 | a node and a trailing ".." are cut off the text |
| PathCompress.RemoveDotDots | libncftp/u_pathcat.c:178-231 | the restarting second pass ends, with the walk of the components, or with "." where ".." meets a root the source did not start with |
| PathCompress.PopKeepsOutcome | libncftp/u_pathcat.c:178-231 | no removal changes what the second pass ends with, the one at the root of a path that did not start with a slash included |
| PathCompress.CompressedRightIff | libncftp/u_pathcat.c:56-233 | the result is the stack walk of the components exactly when the first pass gets the path right |
| PathCompress.RelativeWalk | libncftp/u_pathcat.c:178-231 | a relative walk only collects in front the ".." that an absolute one ignores at the root |
| PathCompress.CompressPath | libncftp/u_pathcat.c:56-233 | in place, every path becomes the stack walk of its components, or, if the first pass got it wrong, exactly what is stated instead |
| PathCompress.PathCat | libncftp/u_pathcat.c:237-295 | the canonical form of an absolute path or of one that starts with a tilde, whatever the current directory, and of the two joined for any other as long as nothing is cut; and what comes of a path cut to the 512-character temporary |
| PathCompress.PathCatComposes | libncftp/u_pathcat.c:237-295 | going to a and then to b is going to a/b, from the current directory or the root, and to b alone if that is absolute, as long as nothing is cut |
| LsCache.SurvivesThirtyOne | ncftp/ls.c:140-177 | an undisturbed listing is remembered through the next 31 additions and no more |
| LsCache.ForgottenUntilAdded | ncftp/ls.c:95-134 | a listing flushed, or found expired, is not remembered through any calls that do not add it again |
| LsCache.AddAndLookup | ncftp/ls.c:111-177 | a listing added is found until its lifetime has passed, and not after |
| LsCache.FlushAndLookup | ncftp/ls.c:95-134 | and not at all after a flush |
| LsCache.Cache.constructor | ncftp/ls.c:39-44 | an empty cache remembers nothing |
| LsCache.Cache.FlushLsCache | ncftp/ls.c:95-105 | afterwards no slot is live and nothing is remembered for any path |
| LsCache.Cache.LsCacheLookup | ncftp/ls.c:111-134 | a hit is exactly what the calls so far leave remembered for the path, unexpired; no such memory is missed |
| LsCache.Cache.LsCacheAdd | ncftp/ls.c:140-177 | a nonempty listing is remembered, its predecessor flushed, and every other one ages by one; an expiration time of 0 loses it |
| LsCache.Cache.OneSlotPerPath | ncftp/ls.c:111-177 | at most one live slot has a given path |
| FileInfoList.ReversedIsSorted | libncftp/linelist.c:380-392 | reversing a vector sorts it the other way exactly if it was sorted |
| FileInfoList.CmpOrders | libncftp/linelist.c:207-310 | each comparator is a total preorder |
| FileInfoList.BreadthFirstOrders | libncftp/linelist.c:315-360 | so is the breadth-first comparator |
| FileInfoList.SortedByFields | libncftp/linelist.c:207-310 | sorted by a comparator is sorted by the field: names up or down, times and sizes with the newest and largest first for ascending |
| FileInfoList.SortedByDepth | libncftp/linelist.c:315-360 | breadth first is fewer slashes first, and names in order among equals |
| FileInfoList.ReverseVec | libncftp/linelist.c:380-390 | swapping from both ends reverses the vector |
| FileInfoList.List.AddFileInfo | libncftp/linelist.c:547-568 | a well-formed doubly linked list gets a copy at its end |
| FileInfoList.List.RemoveFileInfo | libncftp/linelist.c:500-541 | it loses exactly one node, wherever that is, and stays well-formed, and true tags stay true |
| FileInfoList.List.VectorizeFileInfoList | libncftp/linelist.c:435-448 | the vector holds the nodes in list order and a null behind them |
| FileInfoList.List.UnvectorizeFileInfoList | libncftp/linelist.c:453-478 | the nodes are linked in vector order, forwards and backwards |
| FileInfoList.List.SortFileInfoList | libncftp/linelist.c:365-430 | a permutation; with the tags set to the same key the vector is left or reversed, otherwise it is sorted: by name, newest or largest first or the other way, or by number of slashes and then name; left alone for any other key; true tags stay true |
| FileInfoList.SortRun | libncftp/linelist.c:365-478 | from the vector over any run of requests to the relinked list: all nodes, linked both ways, in the order of names, times or sizes last asked for, with true tags |
| FileInfoList.List.AppendKeepsTags | libncftp/linelist.c:547-568 | adding an entry keeps true tags true exactly when it does not come before the last one, or the list is empty or not tagged |
| FileInfoList.UnsortedDespiteTags | libncftp/linelist.c:376-378 | "b" sorted, "a" added, sorted again: the outcome is not sorted |
| TreeWalk.WalkIsListing | libncftp/ftw.c:174-323 | the walk visits what a plain recursive listing names, each as often |
| TreeWalk.SubDirVisits | libncftp/ftw.c:255-309 | deferring the subdirectories loses no visit |
| TreeWalk.SubDirTallies | libncftp/ftw.c:255-309 | nor any count |
| TreeWalk.EntryVisited | libncftp/ftw.c:210-282 | every entry but "." and ".." is visited as what it is, hidden ones included; entries that are neither file, link nor directory are not |
| TreeWalk.TreeCounted | libncftp/ftw.c:174-323 | the counters are the numbers of visits of each kind, for directories as far as these can be opened |
| TreeWalk.DepthCounted | libncftp/ftw.c:174-323 | the depth is that of the deepest directory that can be opened |
| TreeWalk.FtwInfo.VisitLeaves | libncftp/ftw.c:210-282 | files and links are called back in order with their true paths until one is refused; the subdirectories are queued in order |
| TreeWalk.FtwInfo.VisitDirs | libncftp/ftw.c:284-311 | the queued subdirectories are walked in order in the shared buffer, whose prefix is restored each time |
| TreeWalk.FtwInfo.FtwTraverse | libncftp/ftw.c:174-323 | visits, counters and depth of a whole subtree; a refused callback ends them; an unreadable directory is passed over |
| TreeWalk.SlashesCut | libncftp/ftw.c:362-370 | what is cut off a start path is slashes only, and all of them but one that is everything |
| TreeWalk.FtwInfo.PutStart | libncftp/ftw.c:362-370 | the start path loses its trailing slashes, but never its last character |
| TreeWalk.FtwInfo.Ftw | libncftp/ftw.c:328-430 | the root first, then all below it; on success the counters are the numbers of visits; start path restored; nothing at all without a directory to start from |
| LineReader.NextLineSplits | libncftp/rcmd.c:887-946 | what one call takes is the first piece of the stream without its CRs, up to an LF or bufsize-1 octets |
| LineReader.LinesAreSplit | libncftp/rcmd.c:887-946 | the lines of all calls are the direct split of the stream without its CRs |
| LineReader.NothingLost | libncftp/rcmd.c:887-946 | for every buffer size the lines hold every octet but CRs and LFs, once and in order |
| LineReader.LinesRestored | libncftp/rcmd.c:887-946 | the lines with their LFs are the stream exactly when every line has room in the buffer, and an octet to spare if an LF ends it |
| LineReader.FullLineQuirk | libncftp/rcmd.c:902-935 | a line of exactly bufsize-1 octets is followed by an extra empty one |
| LineReader.Reader.Fill | libncftp/rcmd.c:903-925 | a refill of any size changes nothing about what is still to come |
| LineReader.Reader.BufferGets | libncftp/rcmd.c:887-946 | for every sequence of read sizes a call returns the next line and leaves the rest; -1 only at the end with nothing collected |
| LineReader.ListedWhole | libncftp/io_listmem.c:269-299 | a line without NUL is listed whole, any other up to it |
| LineReader.LeftOut | libncftp/io_listmem.c:288-293 | exactly ".", ".." and names with a control character behind two dots are left out |
| LineReader.ListToMemory | libncftp/io_listmem.c:269-299 | call after call, for every sequence of read sizes, a listing gets the lines of the direct split, without "." and "..", and without blank ones unless they are wanted |
| History.TypedLines | ncftp/gl_getline.c:1513-1543 | on typed lines both ways the code strips a newline agree |
| History.KeptIsClean | ncftp/gl_getline.c:1513-1543 | no blank line is kept, and no line twice in a row |
| History.BlankIff | ncftp/gl_getline.c:1525-1527 | a line is blank exactly when it holds nothing but spaces, tabs and newlines |
| History.KeptAreOffered | ncftp/gl_getline.c:1513-1543 | of typed lines, all that are not blank are kept, without their newline, but for repeats in a row |
| History.RingStep | ncftp/gl_getline.c:1533-1539 | adding a line moves every other one a step further back |
| History.Ring.constructor | ncftp/gl_getline.c:1485-1494 | an empty history, its empty element first |
| History.Ring.Add | ncftp/gl_getline.c:1513-1543 | the kept lines grow by at most this one; slot hist_last is empty again and the position is on it |
| History.Ring.Prev | ncftp/gl_getline.c:1545-1561 | the k-th step back returns the k-th newest line, for as many as are held, at most 99 |
| History.Ring.Next | ncftp/gl_getline.c:1563-1578 | a step forward retraces one step back |
| History.RecallAfter | ncftp/gl_getline.c:1513-1578 | after any run of additions, the i-th of k steps back returns the i-th newest line kept, for as many as are held, at most 99, and nothing beyond; steps forward from there return the lines on the way back |
| BookmarkText.NibbleOfHexDigit | ncftp/bookmark.c:95-128 | reading a hexadecimal digit undoes writing it |
| BookmarkText.DigitValues | ncftp/bookmark.c:95-128 | the value of every hexadecimal digit, small or large, and that nothing else is one |
| BookmarkText.EscapeSpelled | ncftp/bookmark.c:578-606 | how each character is written: with a backslash, as a dollar sign and two digits, or as it is |
| BookmarkText.RetainedAll | ncftp/bookmark.c:578-606 | nothing is passed over exactly when the whole escaped text fits |
| BookmarkText.RetainedFits | ncftp/bookmark.c:578-606 | what is not passed over fits the buffer |
| BookmarkText.BmEscapeTok | ncftp/bookmark.c:578-606 | the buffer holds the escapes of exactly the characters that find room, and a NUL |
| BookmarkText.WholeIsRead | ncftp/bookmark.c:163-186 | a piece without loose escapes is read to its end and no further |
| BookmarkText.DecodeEscape | ncftp/bookmark.c:163-186 | reading undoes escaping, for every seven-bit text |
| BookmarkText.FieldSurvives | ncftp/bookmark.c:578-606 | a field comes back exactly when it fits the token buffer and, escaped, the escape buffer |
| BookmarkText.NextToken | ncftp/bookmark.c:163-186 | the pointer loop reads one field, clipped to 127 characters, and stops behind its comma |
| BookmarkNumbers.AtoiOfSigned | ncftp/bookmark.c:211-214 | atoi undoes %d for every int |
| BookmarkNumbers.AtoUOfDigits | ncftp/bookmark.c:200-206 | and, with the cast, %u for every unsigned int |
| BookmarkNumbers.DigitsSpelled | ncftp/bookmark.c:614-651 | a number is written with the digit of its remainder by ten last |
| BookmarkNumbers.HexExceedsDecimal | ncftp/bookmark.c:207-210 | a decimal number read as hexadecimal only grows, and stays the same exactly below ten |
| BookmarkNumbers.LastCallSurvives | ncftp/bookmark.c:207-210 | the last call comes back exactly when it has one digit or is -1 |
| BookmarkNumbers.TenBecomesSixteen | ncftp/bookmark.c:207-210 | ten is read as sixteen |
| Bookmarks.LineFields | ncftp/bookmark.c:76-245 | for all 22 fields and any number of tokens: a field comes from its own token and no other, or keeps its default if the line ends before it; the result is the version the line gets as far as |
| Bookmarks.LineRecordStart | ncftp/bookmark.c:76-210 | which token each of the first nine fields comes from, how it is cut or read, and its default |
| Bookmarks.LineRecordRest | ncftp/bookmark.c:76-236 | the same of the others |
| Bookmarks.Bookmark.ParseHostLine | ncftp/bookmark.c:137-245 | the record and the result are those of the tokens of the line, stored in order |
| BookmarkFile.WriteBmLine | ncftp/bookmark.c:614-651 | on success the line and a newline are appended, on failure to write or flush a prefix of them |
| BookmarkFile.LineIsRead | ncftp/bookmark.c:155-236 | a line is read piece by piece as it was written; an empty last piece is not seen |
| BookmarkFile.FieldBack | ncftp/bookmark.c:578-606 | every name, user and account survives; a directory or comment exactly when it fits |
| BookmarkFile.LongDirectoryLost | ncftp/bookmark.c:163-186 | a directory of 128 letters does not |
| BookmarkFile.PasswordRoundTrip | ncftp/bookmark.c:239-243 | a saved password survives when its encoding fits behind the mark; one not saved is empty |
| BookmarkFile.BookmarkRoundTrip | ncftp/bookmark.c:137-245 | reading a written line gives the same record but for the password exactly when the three long fields fit and the last call has one digit or is -1; the result is 8, or 7 when the last field is empty |

## Left out

- Reading PASV replies, socket addresses and private-address fixes: the network says whether each step works.
- Retrying interrupted system calls, progress meters, signals and the timers around each loop; a time-out or a cancellation is a choice.
- ASCII translation modes other than the normal one, and the other upload and download modes of `FTPPutOneF` and `FTPGetOneF` (proxying to a stream, temporary names, deleting the source, callbacks that choose another action).
- Download resume when REST fails: the file is open for appending, so the rewind has no effect.
- DOS and UNC branches of `CompressPath`.
- PathCompress.CompressPath: asks that the text fits the destination, and that the path is not one of "." components only; on such a path the code looks at `d[-1]` when nothing has been written, the character before the destination (`libncftp/u_pathcat.c:166`).
- PathCompress.PathCat: the same.
- TreeWalk.FtwInfo.Ftw: asks that every path fits the buffer, because growing the buffer writes the separator a second time; the modes for a buffer that may not grow, freeing memory and failing to allocate it are not modelled either.
- LsCache.Cache.LsCacheAdd: freeing the listings is not modelled; a listing is a value here.
- Transfer.EndDataCmd: elsewhere than here and in `FTPAbortDataTransfer`, responses that cannot be allocated are left out.
- SpooledUpload.SpoolUpload: of a pass of the spooler, only the attempts at one upload; a connection that cannot be opened, changing directories and the commands around a transfer are left out, and the local file stays the same.
- The SIZE and MDTM commands: what they tell is a parameter, and they are not among the commands the server answers.
- FileInfoList.Qsort: `qsort` is represented by a sort that meets its contract; collation is a total preorder.
- `AddLine` and `RemoveLine`: the same list operations on lines.
- BookmarkText.BmEscapeTok: characters above 127 are left out; they print as negative numbers.
- BookmarkNumbers.Atoi: out-of-range numbers follow the usual 64-bit C library, where the C standard leaves them undefined.
- BookmarkFile.PasswordRoundTrip: the base-64 routines are parameters, taken to undo each other.
- BookmarkFile.BookmarkRoundTrip: asks that the bookmark name and the last address hold no comma, backslash or dollar sign, and that the two mode characters are ordinary ones too, because all of these are written unescaped.
- `UnMlsT`, `UnLslRLine` and `UnDosLine`, the parsers of directory listings.
- Terminal handling, key bindings, completion, commands, preferences, logging, spooling, and replacing the bookmarks file.
