# Maze game core: a Dafny model

This project models the sequential core of a small maze game. The game draws a
random maze into a software framebuffer, lets a mouse walk through it with the
keyboard, and can show a hint path to the exit. The model has three parts.

- **Maze and game logic** (`gamelogic.cpp`):
  - The maze is a `(2H+1) x (2W+1)` boolean map with row stride `RMW = 2W+1`, where true is wall.
  - `initialize` walls every even row and every even column.
  - `randomize` carves passages with a randomized walk that restarts at visited cells, giving a spanning tree of the `W x H` logical cells.
  - `dfs` is a backtracking search that records a path to the exit in `hint`.
  - Each iteration of `in_game_loop` accepts a move, commits it, and runs the restart, quit, hint and win checks.
- **Framebuffer operations** (`graphics.cpp`):
  - Creating and clearing the buffer.
  - Rectangular copy between the frame and the scratch buffer.
  - Setting and blending single pixels.
  - Clamping the drawing boxes, and the box-bounded blending loops of `draw_*`.
- **Images** (`image.cpp`):
  - Creating an image.
  - Pixel addressing, and flipping an image in place horizontally and vertically.
  - The Truevision TGA reader and writer: header fields 1, 3 and 5.3 to 5.6 of the TGA File Format Specification version 2.0, and the run-length packets of image types 10 and 11.
  - Dispatch on the file extension.

Modules and files:

- `indexing.dfy` (`Indexing`): row-major index arithmetic shared by every part.
- `grid.dfy` (`Grid`): the doubled grid, the direction tables, and the initial and carved maps as functions of a list of carves (`Carved`).
  - `TreeOrder`: the walk's visiting order.
  - `HintPath`: what the hint search may store.
  - Lemmas about all of these.
- `maze.dfy` (`MazeModel`): class `Maze`, with the map as an `array<bool>` and `path`/`hint` as sequence fields. `Initialize`, `Randomize`, `Refresh` and `Dfs` are proved against the functions of `Grid`.
- `game.dfy` (`Play`): one frame of the game loop.
  - `Step` states the frame as a function on values.
  - Classes `Mouse` and `Game` run it in place, with `Game.Frame` proved equal to `Step`.
  - `Game.Run` is the loop.
- `framebuffer.dfy` (`Graphics`): class `Framebuffer` over an `array<Color>`.
  - `CopyRect` and `Drawn` are the value-level specifications of `framebuffer_copy` and of the `draw_*` loops.
- `image.dfy` (`Images`): class `Image` over an `array<byte>`. `FlipH` and `FlipV` swap bytes in place and are proved equal to the mirror functions `FlipHOf` and `FlipVOf`.
- `tga.dfy` (`Tga`): the codec over byte sequences.
  - `ParseHeader`, `DecodeRle`, `Decode` and `Encode` are the pure reference.
  - `LoadTga`, `LoadTgaRle` and `SaveTga` are the imperative loaders and writers, proved against that reference.

Modelling conventions:

- **Random numbers.** The random number generator is an oracle sequence `rng: seq<nat>`. Each draw reduces the next entry into the drawn interval. The walk stops early when the sequence runs out, and `Randomize` then reports `complete == false`.
- **Clock.** The clock is a parameter. A frame reads the current time `now`, plus one time `later` that stands for all the clock reads after a restart.
- **Keys.** The keys pressed in a frame form a record of booleans. `left` stands for A or the left arrow, and likewise for the other directions.
- **Files.** A file is its byte sequence. A failed `assert` in the loader becomes an `Err` value naming the check that failed.

Where the code and its documented design differ, the model follows the code:

- **Which path `hint` keeps.** `dfs` copies the stack into `hint` every time it reaches the exit (gamelogic.cpp:171-173). So the last path found is the one kept, not the first. In a maze that is a spanning tree only one simple path exists, so the two agree whenever the maze is complete. `Maze.Dfs` only promises that `hint` is unchanged or is a valid path.
- **`hint` is never cleared.** Turning the hint off or restarting leaves `hint` as it was (gamelogic.cpp:415-487). `Game.Restart` and `Game.ToggleHint` state this.
- **The search target is the win cell.** The target `4*width` of `dfs` (gamelogic.cpp:171) is the index `1*RMW + (RMW-2)` of the win cell tested at gamelogic.cpp:490 (`Grid.Goal`).
- **The row offset of the blending writes.** `set_pixel` and `alpha_blend` write element `x + (y-1)*width` (graphics.cpp:59, graphics.cpp:73), while `framebuffer_copy` uses `x + y*stride`. So a drawn box is one row above the copied box of the same coordinates. `DrawThenRestore` shows that snapshot, draw and restore give back the frame exactly when every drawn pixel that lands outside the copy box has zero coverage; `DrawInsideThenRestore` is the case of a drawing box that, one row up, lies inside the copy box.
- **The moving mouse can leave the copy box.** In the moving branch (gamelogic.cpp:406-410) the copy box is `mouse.AABB()`, taken before `draw(dt)` shifts the drawing centre by up to one cell (gamelogic.cpp:288-300). Nothing in the code keeps the drawn circle inside the copy box or one row below its top, so the restore need not be exact there; `DrawOutsideNotRestored` exhibits a pixel that stays changed.
- **Two-channel images.** `save_tga` writes a 2-channel image with depth 16, and `load_tga` rejects that depth (`Tga.SaveLoadTwoChannels`).

## Model

| member | source | states |
|---|---|---|
| Grid.OffA | gamelogic.cpp:115 | the flat offset of a direction among logical cells is its row step times the width plus its column step |
| Grid.InitialGridAt | gamelogic.cpp:101-112 | after `initialize`, map cell (row, col) is a wall iff row is even or col is even |
| Grid.TargetCoordinates | gamelogic.cpp:135-143 | the neighbour a carve reaches is the logical cell one step away in its direction, and is in range |
| Grid.CarveShape | gamelogic.cpp:156-160 | a carved map cell lies strictly inside the border and has one odd and one even coordinate |
| Grid.CarvedAt | gamelogic.cpp:156-160 | after a list of carves, a map cell is a wall iff it was a wall before and no carve opened it |
| Grid.GroundCells | gamelogic.cpp:101-112 | in a generated maze, a map cell is ground iff it is an odd/odd node or a carved passage |
| Grid.WallsAndNodesKept | gamelogic.cpp:156-160 | border cells and even/even cells stay walls, and odd/odd node cells stay ground |
| Grid.TreeOrderExtend | gamelogic.cpp:154-166 | carving from a visited cell to an unvisited neighbour and appending it keeps the visiting order a tree order |
| Grid.CarvedSnoc | gamelogic.cpp:160 | one more carve clears exactly its own map cell |
| Grid.CarveStep | gamelogic.cpp:156-160 | a carved cell is 4-adjacent to both node cells it joins |
| Grid.ReachableFromStart | gamelogic.cpp:134-166 | every visited cell's node is joined to the first cell's node by a walk over ground |
| Grid.NodeGround | gamelogic.cpp:101-112 | the node cell of every logical cell is ground in the generated map |
| Grid.NodeCellGround | gamelogic.cpp:101-112 | the odd/odd node cell of logical cell (y, x) is in range and ground in every carved map |
| Grid.CarvedKeepsGround | gamelogic.cpp:156-160 | carving only opens walls: a ground cell of the base map stays ground |
| Grid.CarvesOpenDistinctCells | gamelogic.cpp:134-166 | no two carves of a walk open the same map cell |
| Grid.SpanningTree | gamelogic.cpp:134-166 | a complete walk visits every logical cell and opens exactly W*H-1 passages |
| Grid.AllNodesReachable | gamelogic.cpp:134-166 | in a complete maze every logical cell is reachable from the start cell over ground |
| Grid.Goal | gamelogic.cpp:171 | the search target 4*width is the index of the win cell (row 1, column RMW-2) |
| Grid.HintPathPop | gamelogic.cpp:183-187 | a path found after pushing a ground neighbour is also a valid path for the stack before the push |
| MazeModel.Maze.constructor | gamelogic.cpp:78-82 | allocates a map of (2W+1)(2H+1) cells with an empty path |
| MazeModel.Maze.Initialize | gamelogic.cpp:101-112 | the map becomes the initial grid: walls on every even row and every even column |
| MazeModel.Maze.ChooseDirection | gamelogic.cpp:135-147 | uses up to four draws, and any direction it returns leads to an in-bounds unvisited neighbour |
| MazeModel.Maze.OpenPassage | gamelogic.cpp:155-160 | clears the map cell between the current cell and its neighbour, and nothing else |
| MazeModel.Maze.Advance | gamelogic.cpp:155-165 | one carving step moves to the neighbour `cur + offa[offs]`, appends it to the visiting order, records exactly one more carve, marks the new cell visited, and keeps the order a tree order and the map equal to the carved map |
| MazeModel.Maze.Randomize | gamelogic.cpp:119-168 | the new map is the old one with the walk's carves applied; the visiting order is a duplicate-free tree order, every carve joins a visited and a new cell, and the walk is complete iff all W*H cells were visited |
| MazeModel.Maze.Refresh | gamelogic.cpp:96-99 | the map is the initial grid with a tree's carves applied; a complete walk opens W*H-1 passages |
| MazeModel.Maze.Dfs | gamelogic.cpp:170-191 | `path` is left as it was found; `hint` is unchanged or is a duplicate-free 4-neighbour ground path that extends the start stack and ends at the target |
| MazeModel.Maze.TryNeighbour | gamelogic.cpp:177-189 | trying one neighbour keeps `path` as it was and leaves `hint` unchanged or a valid path that extends the start stack |
| Play.StartSafe | gamelogic.cpp:254-259 | the mouse starts at odd coordinates, on ground, strictly inside the border |
| Play.GroundIsInside | gamelogic.cpp:377-386 | a ground cell of a generated maze is never on the border, so the neighbour probes stay in range |
| Play.FirstEnabled | gamelogic.cpp:375-389 | returns -1 iff no direction in the order is enabled, and otherwise an enabled one |
| Play.Accept | gamelogic.cpp:375-389 | the accepted direction is -1 or one of the four directions (`AcceptIsFirstEnabled` is its partner) |
| Play.AcceptIsFirstEnabled | gamelogic.cpp:375-389 | move acceptance takes the first enabled direction in the order left, down, right, up |
| Play.MovementKeepsSafe | gamelogic.cpp:375-412 | accepting and committing a move keeps the mouse on ground strictly inside the border |
| Play.Acceptance | gamelogic.cpp:370-396 | the acceptance half of the movement part leaves the mouse in its cell, and a pending move is one of the four directions |
| Play.Commit | gamelogic.cpp:398-401 | the mouse changes iff a move is pending and has lasted MouseMovingInterval; it then steps by that direction's offsets and stops; the gate, hint and times stay |
| Play.Movement | gamelogic.cpp:370-401 | the movement part leaves the hint, the start, hint and restart stamps alone; an accepted move closes the gate and stamps `prev` and `printed` with the frame time |
| Play.Checks | gamelogic.cpp:415-494 | the checks keep the accepted direction; a restart keeps running without a search; without a restart the mouse and its move stamp are left as the movement part left them |
| Play.Step | gamelogic.cpp:370-494 | one loop pass accepts -1 or a direction, and a restart puts the mouse at the start with every stamp set to the later clock reading (`StepAcceptance`, `StepKeepsSafe`, `StepExclusive`, `StepOutcome` and `StepHint` are its partners) |
| Play.AcceptanceKeepsSafe | gamelogic.cpp:375-396 | an accepted direction leads to a ground cell, so the mouse stays safe |
| Play.CommitKeepsSafe | gamelogic.cpp:398-401 | committing a pending move puts the mouse on a ground cell strictly inside the border |
| Play.StepAcceptance | gamelogic.cpp:370-396 | a move is accepted only when the mouse is idle and the key gate is open, and then it is into a ground cell and closes the gate |
| Play.StepKeepsSafe | gamelogic.cpp:398-401 | after a frame the mouse is on ground inside the border; it moved by one step in one coordinate, or not at all, or was reset to the start |
| Play.StepExclusive | gamelogic.cpp:415-441 | a frame that accepts a move neither restarts nor toggles the hint; a restart keeps the game running with the gate open and the hint off, and skips the quit, hint and win checks |
| Play.StepOutcome | gamelogic.cpp:443-494 | a frame quits iff escape is held and no restart happened; it wins iff neither happened and the mouse is on the win cell, whose index is the search target |
| Play.StepHint | gamelogic.cpp:450-487 | a hint press flips the hint flag only with the gate open and the interval passed; the search runs iff the hint turns on |
| Play.Mouse.constructor | gamelogic.cpp:254-259 | the mouse starts at the start cell, idle, with no pending move |
| Play.Mouse.Reset | gamelogic.cpp:430 | the mouse returns to the start cell, idle |
| Play.Mouse.Move | gamelogic.cpp:305-310 | shifts the coordinates by (dx, dy) and keeps the pending move |
| Play.Game.constructor | gamelogic.cpp:320-354 | refreshes the maze and starts with the mouse at the start, the gate open and the hint off |
| Play.Game.ChooseMove | gamelogic.cpp:375-389 | returns the accepted direction of the current map and mouse |
| Play.Game.MovePhase | gamelogic.cpp:370-412 | updates the mouse and gate exactly as the movement part of a frame |
| Play.Game.AcceptPhase | gamelogic.cpp:370-396 | updates the gate, the pending move and the time stamps exactly as `Acceptance` |
| Play.Game.CommitPhase | gamelogic.cpp:398-401 | moves a mouse whose move has lasted long enough, exactly as `Commit` |
| Play.Game.NewMaze | gamelogic.cpp:96-99 | the map becomes a generated maze |
| Play.Game.Restart | gamelogic.cpp:415-441 | resets the mouse, gate, hint flag and times, and leaves `path` and `hint` as they were |
| Play.Game.ToggleHint | gamelogic.cpp:450-487 | flips the hint flag and closes the gate; turning it on seeds `path` with the mouse cell and runs the search |
| Play.Game.Frame | gamelogic.cpp:355-497 | one loop iteration changes the state exactly as `Step`; the map changes only on restart, and `path`/`hint` only when the search runs |
| Play.Game.Run | gamelogic.cpp:355-500 | the frames that ran form a trace of `Step`s from the initial state; every frame but the last kept running; the result is 1 iff the last frame won, and 0 iff it quit or every input ran without an end |
| Graphics.Framebuffer.constructor | graphics.cpp:16-31 | for positive sizes, every pixel is (0, 0, 0, 1) |
| Graphics.Framebuffer.ClearColor | graphics.cpp:40-46 | every pixel becomes the given colour |
| Graphics.Copy | graphics.cpp:48-53 | the target becomes `CopyRect` of the old target and source; the source is unchanged when they differ |
| Graphics.CopyRow | graphics.cpp:51-52 | one row of the rectangle is copied and nothing else changes |
| Graphics.CopyRectAt | graphics.cpp:48-53 | inside the rectangle a pixel comes from the source, outside it keeps the target's value |
| Graphics.CopyIdempotent | graphics.cpp:48-53 | copying the same rectangle twice equals copying it once |
| Graphics.SnapshotRestore | gamelogic.cpp:406-410 | snapshot into the scratch buffer, writes only inside the rectangle, then copy back: the frame is restored |
| Graphics.DrawThenRestore | gamelogic.cpp:406-410 | snapshot, draw, then copy back restores the frame exactly when every drawn pixel outside the copy box (one row up) has zero coverage |
| Graphics.DrawInsideThenRestore | gamelogic.cpp:406-410 | the restore is exact when the drawing box, one row up, lies inside the copy box |
| Graphics.DrawSameBoxThenRestore | gamelogic.cpp:406-410 | drawing into the very box that was copied is restored when the box's first row gets no coverage |
| Graphics.DrawOutsideNotRestored | gamelogic.cpp:406-410 | a drawing that reaches outside the copy box with nonzero coverage leaves a changed pixel after the restore |
| Graphics.Framebuffer.SetPixel | graphics.cpp:55-62 | only element x+(y-1)*width changes, to the given colour with w = 1 |
| Graphics.Framebuffer.AlphaBlend | graphics.cpp:69-77 | only element x+(y-1)*width changes, to the blend of the old pixel |
| Graphics.BlendExtremes | graphics.cpp:73-75 | coverage 0 keeps the pixel, coverage 1 gives the drawing colour, and w is kept |
| Graphics.Clip | graphics.cpp:108-111 | the clamped box stays inside the window and holds exactly the window points of the unclamped box |
| Graphics.CapsuleAABB | graphics.cpp:106-113 | the capsule box, clamped to the window |
| Graphics.CircleAABB | graphics.cpp:130-137 | the circle box widened by one pixel on each side, clamped to the window |
| Graphics.BoxAABB | graphics.cpp:159-169 | the box widened by one pixel on each side, clamped to the window |
| Graphics.Framebuffer.DrawCoverage | graphics.cpp:118-120 | blends exactly the box's pixels with their coverage, writing row y of the box at row y-1 of the buffer |
| Graphics.Framebuffer.DrawRow | graphics.cpp:118-120 | blends one row of the box and nothing else |
| Graphics.Framebuffer.DrawLine | graphics.cpp:115-121 | blends exactly the pixels of the clamped capsule box |
| Graphics.Framebuffer.DrawCircle | graphics.cpp:139-145 | blends exactly the pixels of the clamped circle box |
| Graphics.Framebuffer.DrawBox | graphics.cpp:170-186 | blends exactly the pixels of the clamped box |
| Graphics.DrawnFootprint | graphics.cpp:115-121 | a drawing changes only pixels of its box (one row up) and never changes the w channel |
| Images.Image.constructor | image.cpp:11-25 | for positive sizes and 1 to 4 channels, the buffer holds width*height*channels zero bytes |
| Images.PixelIndexBounds | image.cpp:196-200 | byte k of pixel (row, col) is at (row*width+col)*channels+k, inside the buffer |
| Images.PixelSplit | image.cpp:196-200 | every buffer position is byte k of exactly one in-range pixel (row, col) |
| Images.PixelDecode | image.cpp:196-200 | the row, column and channel of byte k of pixel (row, col) are row, col and k |
| Images.FlipHOfAt | image.cpp:202-216 | after a horizontal flip, byte k of pixel (r, c) is the old byte k of pixel (r, width-1-c) |
| Images.FlipHTwice | image.cpp:202-216 | flipping horizontally twice gives back the image |
| Images.FlipHMiddle | image.cpp:202-216 | for odd width, the middle column is unchanged |
| Images.FlipVOfAt | image.cpp:218-232 | after a vertical flip, byte k of pixel (r, c) is the old byte k of pixel (height-1-r, c) |
| Images.FlipVTwice | image.cpp:218-232 | flipping vertically twice gives back the image |
| Images.FlipVMiddle | image.cpp:218-232 | for odd height, the middle row is unchanged |
| Images.Image.FlipH | image.cpp:202-216 | the buffer becomes its horizontal mirror |
| Images.Image.FlipRowH | image.cpp:207-214 | swaps the pixels of one row with their mirrors, and nothing else |
| Images.Image.SwapPixels | image.cpp:211-213 | exchanges the channel bytes of two pixels, and nothing else |
| Images.Image.FlipV | image.cpp:218-232 | the buffer becomes its vertical mirror |
| Images.Image.FlipRowV | image.cpp:223-230 | swaps one row's pixels with those of its mirror row, and nothing else |
| Tga.Field16 | image.cpp:108-109 | a little-endian 16-bit field, in 0..65535 |
| Tga.ParseHeader | image.cpp:104-126 | accepted iff the header has 18 bytes, a positive little-endian width (bytes 12-13) and height (bytes 14-15), depth 8, 24 or 32, ID length 0 and type 2, 3, 10 or 11; it then gives those sizes, channels = depth/8, run-length iff type 10 or 11, and the descriptor byte; too short a file is the first error |
| Tga.PacketCount | image.cpp:70 | a packet covers 1 to 128 pixels |
| Tga.DecodeRle | image.cpp:61-92 | a successful decode fills exactly the requested number of bytes; it fails only with bytes still to fill, by running out of data or by a packet that overruns the buffer |
| Tga.RunPacketDecodes | image.cpp:74-82 | a run packet repeats its one pixel count times |
| Tga.RawPacketDecodes | image.cpp:83-89 | a raw packet copies count pixels verbatim |
| Tga.RunPacketShort | image.cpp:73-77 | a run packet whose pixel is cut off by the end of the file fails with short data |
| Tga.RunPacketUnfold | image.cpp:73-82 | a run packet whose pixel is in the file decodes to that pixel repeated, then the rest of the data |
| Tga.Decode | image.cpp:96-137 | a decoded image has the header's sizes and channels and exactly width*height*channels bytes |
| Tga.SaveLoad | image.cpp:96-158 | for 1, 3 or 4 channels and sizes below 65536, loading what `save_tga` writes gives back the same image |
| Tga.SaveLoadTwoChannels | image.cpp:148-153 | a saved 2-channel image is rejected by the loader for its depth |
| Tga.SaveTruncatesSize | image.cpp:149-152 | saving keeps the sizes only modulo 65536 |
| Tga.EncodedHeaderParses | image.cpp:104-126 | the header `save_tga` writes passes the loader's header checks, giving the image's size, channels, no compression and descriptor 0 |
| Tga.DecodePlain | image.cpp:120-136 | an uncompressed file with descriptor 0 decodes to the bytes after the header, unflipped |
| Tga.ExtractExtension | image.cpp:160-164 | the extension never contains a '.' |
| Tga.ExtensionAfterLastDot | image.cpp:160-164 | with a '.' in the name, the extension is the text after the last '.'; with none, it is empty |
| Tga.LoadTgaRle | image.cpp:61-92 | succeeds iff `DecodeRle` does, and then the buffer is its result; otherwise it fails with the same error |
| Tga.LoadPacket | image.cpp:67-90 | reads one packet, or fails as `DecodeRle` does at that position |
| Tga.LoadRunPacket | image.cpp:74-82 | writes one run packet's pixel count times after the bytes already filled |
| Tga.LoadRawPacket | image.cpp:83-89 | copies one raw packet's bytes after the bytes already filled |
| Tga.ReadPixel | image.cpp:75-77 | reads the next `channels` bytes, or fewer when the file ends |
| Tga.WriteRun | image.cpp:78-82 | the buffer after position `at` holds the pixel repeated count times |
| Tga.WritePixel | image.cpp:79-81 | the channel bytes of one pixel are written at position `at`, after the bytes already there |
| Tga.WriteRaw | image.cpp:84-88 | copies n file bytes into the buffer when the file has them |
| Tga.LoadTga | image.cpp:96-137 | succeeds iff `Decode` does, and then returns a fresh image with the decoded sizes, channels and pixels, flipped as the descriptor bits say |
| Tga.SaveTga | image.cpp:139-158 | the written file is the 18-byte header followed by the raw buffer (`Encode`) |
| Tga.EncodeHeader | image.cpp:146-153 | the header is 18 bytes long (`EncodedHeaderParses` is its partner) |
| Tga.Encode | image.cpp:139-158 | the file is the header's 18 bytes plus the buffer (`SaveLoad` is its partner) |
| Tga.ImageLoad | image.cpp:166-175 | any extension other than "tga" is rejected; a "tga" file loads as `LoadTga`: a fresh image with the decoded sizes, channels and pixels, or the decoder's error |
| Tga.ImageSave | image.cpp:177-185 | any extension other than "tga" is rejected; a "tga" name saves as `SaveTga` |

## Left out

- Signed distance functions `capsuleSDF`, `circleSDF` and `boxSDF` are left out: they are floating-point geometry built on square roots. Drawing takes their coverage as a function parameter.
- The numeric value of a blend is left out. `Blend` works on `real` numbers with no float rounding.
- The AABB helpers' `floor`/`ceil` of float coordinates are left out. They are parameters `loX`, `hiX`, `loY` and `hiY`.
- `image_resize` is left out: it is bilinear float interpolation.
- The drawing layout in `maze_t::draw`, `draw_hint` and `mouse_t::draw`, the easing, and the margins in `main_loop` are left out. They only decide which pixels get which colour.
- `mt19937` and the clock seed are left out. The generator is an oracle sequence, and its distribution is not modelled.
- Window handling, event polling, `platform_get_time` and key queries are left out. Keys and times are parameters, and closing the window is the end of the input list in `Game.Run`.
- input.cpp is not part of this model.
  - `update_key` never sets the return key, so restart is fed by the abstract `enter` flag.
  - The click callbacks' results are unused by the game.
- main.cpp is not part of this model: it only calls `main_loop`.
- `fopen`, `fread`, `fwrite` and `fclose` are left out. A file is its byte sequence, and a read past the end is an `Err`.
- `image_release` and the destructors are left out: memory is managed by Dafny.
- The constructor `maze_t(int,int)` is left out: the game only uses the default constructor.
- The colour-accent tables are left out: they are only presentation constants.
- `difficulty_list` is left out: it chooses the maze size and the window size (gamelogic.cpp:509-512), which the model takes as the parameters `w` and `h` and leaves out.
- Float rounding of the loop's clock is left out. The times are `float` in the source (gamelogic.cpp:341-343, 352-358), but the model compares exact `real` differences against KeyGate (0.1), KeyInterval and MouseMovingInterval. A difference that lies within rounding of a threshold may compare the other way in the source.
- Graphics.Framebuffer.SetPixel, Graphics.Framebuffer.AlphaBlend and the `draw_*` methods require the written index `x+(y-1)*width` to be in the buffer. For `draw_*` this means the box's first row must be at least 1. The source does not guard this, and a box clamped to row 0 writes before the buffer.
- Graphics.Copy requires the two buffers to have the same length. Both buffers in the game are window-sized.
- Tga.Decode models the bit tests `header & 0x80`, `header & 0x7F` and `imgdesc & 0x20` arithmetically, as `h >= 128`, `h % 128` and `d / 32 % 2`, instead of as bit-vector operations.
- Tga.LoadTga states nothing about the buffer after a failed load: the source aborts at the failed `assert` instead.
- MazeModel.Maze.Dfs promises that `hint` is unchanged or a valid path. It does not say which of several paths is kept, nor that a path is found whenever one exists.
- MazeModel.Maze.Randomize stops when the oracle sequence runs out, so it states completeness as "complete iff all W*H cells were visited". It does not claim that the walk always finishes.
