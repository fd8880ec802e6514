# Greenland albedo dashboard: the selection rules

The dashboard (`greenland.py`) shows Greenland ice-albedo, weather-station,
river-flux and hexagon-map data for one date the user picks. Nearly all of it
reads files and draws charts. This project models the few rules that decide
*which* rows and which label the page shows. All of them depend only on the
selected date:

- the Watson River flux window: rows dated at most 7 days before or after the selected day, both ends included;
- the hourly KAN_B / KAN_L temperature window: 14 days either side of midnight of the selected day;
- the daily KAN_B / KAN_L points of the selected year;
- the hexagon snapshot: the partition for the selected year, cut down to rows of exactly the selected day;
- the albedo slice for a (year, day-of-year) pair, and the histogram rectangles of the first table row with that key;
- the loop that finds the widest histogram bar and picks one of three captions and pictures: "Mostly Fresh Snow", "Mostly Wet Snow" or "Mostly Dark, Bare Ice".

Tables are sequences of row records. A pandas boolean-mask selection
`df[mask]` is `Tables.Filter`. Its contract says the result keeps exactly the
rows the mask accepts, in their original order, each as often as it occurs in
the input. `Tables.FilterUnique` proves that this contract pins the result down
completely. Dates are integer instants. A selected date is a
`Loaders.CalendarDay`, which carries its year, its day of the year and the
instant of its midnight. The caller works these out, as Python's `datetime`
does in the source. The `ALBEDO` object, whose `get_data` overwrites its
fields, is the class `Loaders.Albedo`. The classification loop is the method
`Classification.Classify`. It is proved against the specification functions
`MaxWidth` and `Dominant`, and lemmas characterise both.

Modules: `Tables` (tables.dfy), `Loaders` (loaders.dfy), `Classification`
(classification.dfy).

Two behaviours of the code worth stating:

- Several histogram rows with the same (year, day-of-year) key are not an error. The code takes the first one (`.values[0]`).
- The station loader does not report an unknown station by name. It only fails to open a file.

## Model

| member | source | states |
|---|---|---|
| `Tables.Filter` | greenland.py:52 | A boolean mask keeps exactly the rows it accepts: membership both ways, each kept row as often as in the input, the others never, in input order, never longer than the input |
| `Tables.FilterUnique` | greenland.py:52 | Any order-preserving selection with those row counts equals the mask result, so the mask result is unique |
| `Tables.FilterIdempotent` | greenland.py:46-54 | Applying the same mask again changes nothing |
| `Tables.FilterHead` | greenland.py:38 | The first selected row is the first input row the mask accepts |
| `Loaders.FluxWindow` | greenland.py:46-54 | Keeps exactly the flux rows whose date lies in [d - 7 days, d + 7 days], both ends included, in order and without duplication; an empty result is not an error |
| `Loaders.FluxWindowIdempotent` | greenland.py:46-54 | Narrowing an already-narrowed flux window with the same date gives the same rows |
| `Loaders.HourlyWindow` | greenland.py:143-150 | Keeps exactly the hourly rows whose timestamp lies in [d - 14 days, d + 14 days], both ends included, in order; used for both stations |
| `Loaders.DailyOfYear` | greenland.py:129-132 | Keeps exactly the daily rows whose year is the selected year, in order |
| `Loaders.HexagonSnapshot` | greenland.py:56-60 | Errors exactly when the selected year has no partition; otherwise keeps exactly the rows of that year's partition whose date equals d (an equality test, not a window), in order |
| `Loaders.AlbedoSlice` | greenland.py:28 | Keeps exactly the albedo observations whose (yyyy, doy) equals the query key, in order |
| `Loaders.HistogramFor` | greenland.py:37-38 | Fails with NoHistogramForDate exactly when no table row has the (yyyy, doy) key |
| `Loaders.HistogramForFirstMatch` | greenland.py:38 | When some row has the key, the lookup returns the histogram of the first such row; later matches are ignored |
| `Loaders.Albedo.constructor` | greenland.py:23-24 | A new albedo object has no observations and no rectangles |
| `Loaders.Albedo.GetData` | greenland.py:26-38 | Replaces the observations with the (yyyy, doy) slice. Then it replaces the rectangles with the looked-up histogram, or leaves them unchanged and reports NoHistogramForDate |
| `Classification.MaxWidth` | greenland.py:182-196 | The running maximum ends as the maximum of 0 and all bar widths: at least 0, at least every width, and equal to 0 or to some width |
| `Classification.DominantIsFirstWidest` | greenland.py:184-186 | The dominant bar is exactly the first bar that is wider than 0 and than every earlier bar, and at least as wide as every bar; a later bar of equal width never replaces it |
| `Classification.NoDominantIffNoPositiveWidth` | greenland.py:182-186 | There is no dominant bar exactly when no bar has a positive width |
| `Classification.DominantSnoc` | greenland.py:186-196 | One more bar raises the running maximum to its width, and becomes the dominant bar, only when it is strictly wider than 0 and than every bar before it |
| `Classification.Classify` | greenland.py:182-196 | The loop ends with maxy equal to MaxWidth. With a dominant bar, the image file and title come from that bar's band (yfrom 60 is fresh snow, 40 is wet snow, anything else is dark ice). Without one, the image file is "" and the title is never set. The yfrom-to-caption and yfrom-to-picture table of greenland.py:187-195 is held by the helpers `BandOf`, `Title` and `ImageFile`; `Dominant` gives the position of the first widest positive bar |
| `Classification.PictureShownIffPositiveWidth` | greenland.py:202-204 | A picture is chosen (non-empty file name) exactly when some bar has a positive width |
| `Classification.WidestBarDecides` | greenland.py:184-195 | Bars of widths 5, 9 and 3 starting at 60, 40 and 0 classify the day as mostly wet snow |

## Left out

- File reads (parquet, gzip pickle), file paths and parquet predicate pushdown (greenland.py:18-20, 28, 37, 41-42, 47, 58): each table is a sequence of rows, or a map from year to partition for the hexagon store. A missing hexagon partition is the error `NoPartitionForYear`. The model does not represent any other missing or unreadable file.
- `get_KAN_x_temps` (greenland.py:40-44): it only reads two files for a station identifier and returns them unfiltered, so there is nothing to model beyond file I/O.
- The `GREENLAND` reference-data class (greenland.py:16-20) and the `st.cache` calls (greenland.py:62-65): loading only, and the results of the cache calls are discarded.
- Every Streamlit and matplotlib/seaborn call: page text, the sidebar date picker and its 2012-2014 range, plots, rectangles, axis limits, image display.
- Calendar arithmetic: the year, day of the year and midnight instant of the selected date are inputs. The model does not check that they agree with each other. Timestamps are unbounded integers, not pandas' 64-bit nanosecond counts; the dashboard's dates are far from any overflow.
- Floating-point payloads (flux, temperatures, albedo, elevation, coordinates, abundances, bar height) are carried as opaque `real` fields. Bar widths are compared as exact reals, so NaN widths are not modelled.
- `Loaders.Albedo`: the five parallel column arrays of the source (`lat`, `lon`, `elev`, `albedo`, `temp`) are one sequence of observation records. The object's `greenland` reference is not modelled. The source object has no observation or rectangle attributes before its first `get_data`; the model starts them empty.
- When no histogram row has the (yyyy, doy) key, `.values[0]` at greenland.py:38 raises Python's IndexError, which also stops the rest of the page after line 176. The model returns `Err(NoHistogramForDate)` from `HistogramFor` instead, and `Albedo.GetData` reports it as its failure value.
- The caption read at greenland.py:206 fails when no bar has a positive width, because `title` was never bound. `Classify` returns `title` as `None` in that case instead of modelling Python's NameError.
