# CIM: verified model of the drawing, naming and frame-selection rules

CIM ("YourMovie") is a Streamlit application. A user draws on a canvas or uploads
pictures. The drawings go to the GauGAN stylization service, and the resulting frames
become a video with optional subtitles and audio. Most of the program delegates to
libraries. This project models the self-contained rules among them and proves what
they guarantee:

- **Stroke colour encoding** (`convert_to_hex`): an `(r, g, b)` triple becomes
  `'#{:02x}{:02x}{:02x}'`. Module `HexColour` models Python's `'{:02x}'` for every
  integer, including negative values and values above 255. It adds a decoder and
  proves the round trip in both directions. It also proves that the result is a
  `#rrggbb` string exactly when every channel lies in 0..255.
- **Initial canvas** (`make_canvas`): module `Canvas` builds a fresh 512×512×3
  `array3`. It fills rows 0..299 with the Sky colour and rows 300..511 with the Sea
  colour, each as a slice assignment.
- **Background repaint** (the nested loop in `draw`): module `Repaint` rewrites a
  height×width×3 buffer in place. A black pixel takes its row's background colour. In
  any other pixel, each channel equal to 255 takes the background's channel. The
  methods prove that the in-place rewrite equals the per-pixel function
  `RepaintPixel` applied to each original pixel and its row index.
- **File names** (module `FileNames`): Python's `str.split`, `os.path.split(...)[-1]`,
  `os.path.join` and `'%s' % n` are modelled as functions. On top of them the module
  defines the processed-picture path (`make_nature`) and the uploaded-file path
  (`save_uploadedfiles`). It proves that processed pictures are always movie frames,
  also when `sort_files` lists them as `files//name`, and that an uploaded file is a
  frame exactly when it skipped processing. Names are unique only within limits:
  processed names are distinct while style positions stay below 10, and upload names
  are distinct among themselves. The two schemes share the `files` folder and can
  collide: drawing `tmp/1.png` processed with the first style and the eleventh upload
  saved without processing are both `files/10.jpg`.
- **Frame selection** (module `Frames`): the `make_seret` loop keeps the files whose
  last `.`-field is `jpg`, in order. Their number equals the `total_frames` figure on
  the movie page.
- **YouTube link check** (module `YouTubeLink`): a link is accepted exactly when its
  first 32 characters are `https://www.youtube.com/watch?v=` and its length is 43.
  Every other link gets the "Invalid youtube link" error.

The Sky and Sea colours come from a pickle file in the source. Here they are
parameters of type `Rgb`, whose channels are uint8 values (`Pixels.Byte`).

## Model

| member | source | states |
|---|---|---|
| HexColour.ConvertToHex | CIM_project.py:41-48 | for any integers, the encoding starts with '#' and is at least 7 characters long (each '{:02x}' field fills at least width 2) |
| HexColour.HexLength | CIM_project.py:48 | the hexadecimal digits of n are one character below 16, at most two below 256, and at least three from 256 on |
| HexColour.Format02xOfByte | CIM_project.py:48 | a channel in 0..255 is formatted as exactly two lower-case digits: high nibble, then low nibble |
| HexColour.ConvertToHexOfColour | CIM_project.py:41-48 | a colour with channels in 0..255 becomes '#' and six lower-case hex digits, two per channel in R, G, B order |
| HexColour.DecodeConvertToHex | CIM_project.py:41-48 | decoding the encoding of any colour gives back the same (r, g, b) |
| HexColour.ConvertToHexDecode | CIM_project.py:41-48 | every '#rrggbb' string is the encoding of the colour it decodes to, so the encoding is a bijection onto these strings |
| HexColour.ConvertToHexIsColourIff | CIM_project.py:47-48 | the encoding is a '#rrggbb' string if and only if all three channels lie in 0..255 (otherwise a field is longer or carries '-') |
| Canvas.FillRow | CIM_project.py:70-72 | after img[i, 0:width] = c, every cell of row i holds c's channel and every cell of the other rows is unchanged |
| Canvas.FillRows | CIM_project.py:70-72 | after img[lo:hi, 0:width] = c, every pixel of rows lo..hi-1 equals c and every other cell is unchanged |
| Canvas.MakeCanvas | CIM_project.py:62-74 | a fresh 512×512×3 image whose pixels in rows 0..299 equal Sky and in rows 300..511 equal Sea; no other value remains |
| Repaint.RepaintLeavesNoWhite | CIM_project.py:295-297 | after the repaint, a channel is 255 only where the row's background colour has 255 in that channel |
| Repaint.RepaintKeepsStrokes | CIM_project.py:294-297 | a non-black stroke colour with no 255 channel is left unchanged |
| Repaint.RepaintKeepsBackground | CIM_project.py:292-300 | a pixel that already has its row's background colour repaints to itself, so the initial canvas survives the repaint unchanged |
| Repaint.RepaintPixelAt | CIM_project.py:294-300 | the channel-by-channel in-place rewrite of pixel (i, j) yields RepaintPixel of its old value and changes no other pixel |
| Repaint.RepaintBackground | CIM_project.py:292-300 | after the nested loop, each pixel is RepaintPixel of its own original value and its row index: black pixels equal Sky when i < 300 and Sea otherwise; in other pixels 255 channels take the background channel and the rest are unchanged; the shape is kept |
| FileNames.Split | CIM_project.py:156 | str.split on one separator always returns at least one field |
| FileNames.SplitJoin | CIM_project.py:156 | joining the fields of a split with the separator gives back the original string |
| FileNames.SplitFieldsClean | CIM_project.py:156 | no field of a split contains the separator |
| FileNames.LastFieldIsLongestSuffix | CIM_project.py:156-157 | split(sep)[-1] is the longest suffix without the separator: either the whole string, or the text right after the last separator |
| FileNames.IsJpgIff | CIM_project.py:156-157 | a file passes the jpg filter if and only if it is 'jpg' itself or ends in '.jpg' |
| FileNames.RFind | CIM_project.py:120 | rfind returns -1 or an index holding the character, and no later index holds it |
| FileNames.BaseNameIsLastField | CIM_project.py:120 | os.path.split(x)[-1] equals the last field of x.split('/') |
| FileNames.PathJoinInjective | CIM_project.py:331-334 | os.path.join of one folder with two relative names gives the same path only when the names are equal |
| FileNames.Decimal | CIM_project.py:120 | '%s' % n is a non-empty string of decimal digits, one digit long when n < 10 |
| FileNames.ParseDecimalOfDecimal | CIM_project.py:331 | parsing the decimal text of n gives n back |
| FileNames.DecimalInjective | CIM_project.py:331-334 | different numbers have different decimal texts |
| FileNames.ProcessedNameLocation | CIM_project.py:120 | the processed path is the folder, '/', and a final component made of the drawing's stem (the base name of p[:-4]), the style position and '.jpg' |
| FileNames.ProcessedNameIsFrame | CIM_project.py:120 | every processed path passes the movie's jpg filter |
| FileNames.ProcessedNameDistinct | CIM_project.py:114-120 | with style positions below 10 (the menu at lines 426-428 has ten styles), equal processed paths mean equal stems and equal style positions |
| FileNames.ProcessedNameCollidesBeyondTenStyles | CIM_project.py:120 | with a style position of 10 or more, two drawings can share a path: any stem at position 11 and the same stem followed by '1' at position 1 (e.g. 'pic1' and 'pic11', both files/pic111.jpg) |
| FileNames.UploadNameIsFrameIff | CIM_project.py:329-334 | the i-th upload passes the jpg filter if and only if it is saved without processing (i.jpg rather than i.png) |
| FileNames.UploadNamesDistinct | CIM_project.py:328-334 | uploads at different positions are saved under different paths |
| FileNames.ProcessedAndUploadNamesCollide | CIM_project.py:328-334 | processed and unprocessed uploads share the folder and collide: upload i saved as i.png and processed with style j (line 120) lands on the same path as upload 10·i + j saved as a jpg, e.g. files/10.jpg for i = 1, j = 0 |
| FileNames.UploadPaths | CIM_project.py:328-334 | the loop writes one path per upload, in order: os.path.join(folder, 'i.png' or 'i.jpg'); all paths are distinct, and they are frames exactly when processing is skipped |
| Frames.JpgFramesAppend | CIM_project.py:155-165 | frame selection distributes over concatenation, so the selected files keep their input order |
| Frames.JpgFramesMembers | CIM_project.py:155-157 | a file is selected if and only if it is among the inputs and passes the jpg filter |
| Frames.JpgFramesCount | CIM_project.py:456 | the number of selected frames equals total_frames, the sum of the per-file jpg booleans |
| Frames.SelectFrames | CIM_project.py:153-165 | the accumulation loop returns exactly the jpg files in input order, as many as total_frames |
| Frames.FramesExistWhenCounted | CIM_project.py:522-531 | when total_frames > 0, the frame list make_seret builds is non-empty |
| Frames.ListedJpgIsFrame | CIM_project.py:87-90 | a file that sort_files lists as dir + '/' + name, with name ending in '.jpg', passes the jpg filter for any dir, including 'files/', which yields 'files//name' |
| Frames.ProcessedFilesAreFrames | CIM_project.py:114-120 | a processed picture, listed by sort_files from any directory under its base name, is selected as a frame |
| YouTubeLink.CheckLink | CIM_project.py:509-515 | the audio is downloaded if and only if the link has length 43 and its first 32 characters are the watch prefix; otherwise the result is the invalid-link message |
| YouTubeLink.ValidLinkIff | CIM_project.py:511 | a link is accepted if and only if it is 43 characters long and is the watch prefix followed by the rest of the link |
| YouTubeLink.PrefixWithIdAccepted | CIM_project.py:511 | the watch prefix followed by an id is accepted if and only if the id has 11 characters |
| YouTubeLink.ShortLinkRejected | CIM_project.py:511-515 | a link no longer than the prefix, including the bare prefix, gets the invalid-link error |
| YouTubeLink.ShortFormLinkRejected | CIM_project.py:511-515 | every link starting with the short form 'https://youtu.be/' gets the invalid-link error, whatever its length |

## Left out

- Streamlit pages and routing are UI glue and are not modelled: `edit`, `process`, the rest of `create_movie`, `watch_movie`, `homepage` and `main`.
- The `st.cache` counter that numbers saved drawings is not modelled. Nor is the `tmp/pic%s.png` name built from it (CIM_project.py:50-59, 305-312). The counter is state kept by the framework.
- `sort_files` (CIM_project.py:77-94) is modelled only through the path it builds for each entry (`Frames.ListedPath`). The directory listing and the ordering by modification time are not modelled: frame selection takes the already ordered list as input.
- `os.path` is modelled as POSIX `posixpath` (`/` separator). Under Windows `ntpath` the upload path would be `files\10.jpg`; that variant is not modelled.
- `make_nature` is modelled only through its output path (line 120). Not modelled: the call to the GauGAN service, the comparison with `error_detector.png`, the success and failure counters, and the loop over files and styles.
- OpenCV video writing in `make_seret` is not modelled: reading each image and taking the video size from its shape (lines 159-163, 167-173). A frame is identified by its file name.
- `make_movie` and `download_audio_from_youtube` are not modelled. They use floating-point timing, moviepy, ffmpeg and the network.
- PIL and NumPy conversions are not modelled: the RGBA float canvas converted to uint8 RGB, resizing uploads to 512×512, and loading the colour tables from pickle files. Colours and image channels are taken to be uint8 values already.
- Repaint.RepaintBackground: requires exactly three channels. PIL's convert('RGB') ensures this in the source.
- HexColour.ConvertToHex: takes three integers. A sequence of another length, which Python rejects when unpacking, is not modelled. Neither is a non-integer channel.
