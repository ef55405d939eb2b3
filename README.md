# ASCII-Art-Maker: pixel-matrix extraction

This project models the first stage of the ASCII-art converter: `get_image`
in `src/functions.py`, which turns a decoded raster image into a list of
rows, each row a list of RGB cells. After the image is open, the function
knows its size `(width, height)` and holds a pixel-access object indexed
by `(column, row)`. It builds one empty list per image row. It then walks
the image top to bottom and left to right. For each pixel `(w, h)` it
appends the first three channel values to row `h`, which drops any alpha
channel.

The model is the single module `Functions` in `functions.dfy`:

- `Image` is the decoded image: width, height and a total pixel accessor
  taking the column first and the row second.
- `Rgb` is the slice `p[:3]` applied to a pixel's channel sequence.
- `Extract` is the reference definition of the returned matrix.
- `GetImage` is the imperative extraction loop. It pre-allocates the rows
  and then appends cell by cell in two nested `while` loops. It is proved
  equal to `Extract`, with the shape, cell content and degenerate-size
  facts stated outright.
- `ScanOrder`, `RowsInOrder` and `ExtractIdempotent` state the row-major order of the
  result and the consistency of its transposed indexing.

## Model

| member | source | states |
|---|---|---|
| Functions.GetImage | src/functions.py:26-33 | The result has exactly `height` rows and every row exactly `width` cells. Cell `[h][w]` holds the first three channels of the pixel read at `(w, h)`, so the indices are transposed. Height 0 gives an empty list and width 0 gives `height` empty rows, with no error. The result equals the reference matrix `Extract`. The loop invariants say that finished rows are complete, row `h` holds a prefix of its final contents and later rows are still empty, so each append touches only row `h`. |
| Functions.Rgb | src/functions.py:31 | The slice `[:3]` of a pixel is a prefix of its channel sequence. Its length is 3, or the pixel's whole length when it has fewer than three channels, so a fourth (alpha) channel and any beyond it are dropped. |
| Functions.ScanOrder | src/functions.py:28-31 | The result read row after row has `width * height` cells. Pixel `(w, h)` is at position `h * width + w`, which is the order the loops visit pixels: left to right within a row, rows top to bottom. |
| Functions.RowsInOrder | src/functions.py:28-31 | The result read row after row is the rows above `h`, then image row `h` in column order, then the rows below `h`. So rows come out top to bottom and, within a row, left to right. The statement uses no arithmetic on positions. |
| Functions.ExtractIdempotent | src/functions.py:12-15 | Reading the result back as an image, with the same convention that cell `[h][w]` is pixel `(w, h)`, and extracting it again gives the same matrix. The cells are already RGB and the row/column swap is undone exactly. |

## Left out

- `src/logger.py` as a whole: a static logging configuration, a `logs` directory creation and a console message at import time. It has no computable behaviour to state.
- Opening and decoding the file (`Image.open`, `img.load()`, `img.size`) and the `pathlib.Path` conversion of the argument. These are file I/O and image decoding inside the imaging library. They are replaced by the `Image` value given to `GetImage`. So a missing or corrupt file, which raises inside the library, is not modelled.
- The pixel accessor being used after the `with` block has closed the image. Whether this works depends on the imaging library's loading behaviour.
- Images whose pixels are a bare integer rather than a tuple (single-band and palette modes), where `[:3]` would raise. The model gives every pixel a channel sequence.
- Channel values are unbounded integers. The source does not check that they are 8-bit, so neither does the model.
- A zero width or height is not an error in the model, because `get_image` raises nothing for it. It returns an empty list, or `height` empty rows.
- Grayscale reduction, density-to-character mapping, text assembly and the size-budget solver. None of them is part of `src/functions.py`, so they are not part of this model.
