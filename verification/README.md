# Verified model of the classification and handling robot

A Dafny 4.11 model of the robot's planning, vision, communication and pickup code
(`Software/Project/CODE`), with proofs of what that code is for. `dafny verify dfyconfig.toml` checks
everything.

| files | what they model |
|---|---|
| `Distance`, `Grid`, `OpenHeap`, `AStarTheory`, `SearchRuns`, `AStar` | the grid search `astar` with its heap, tables and read-back |
| `PathSampler`, `Route` | `make_path`, and `astar` as a whole |
| `PictureMap` | `astar_init`, and the cells that `no_trans_task` plans to |
| `LinkedQueue`, `Regions`, `FloodFill`, `Labelling` | the linked queue, `BFS` and the seed loops of `init` |
| `LineDrawer`, `PerspectiveGrid` | `line_`, and `get_prox` / `get_line` / `get_cross` with the loops that fill `rec` |
| `Sets`, `Tours`, `AntColony`, `LateScan` | `init_tag(0)`, `ant`, their use in `no_trans_task`, and a run whose scan misses the best |
| `Shuffle`, `FirstTask` | `shuffle`, and the tour that `ACO_to_first` shuffles |
| `FrameSync`, `Handshake` | the serial receiver, and the flags shared by data thread, motor tick and servo thread |

Code that works in place is modelled in place, on arrays and objects, and each such method is proved
against a function or predicate on values; the theorems are about those. The search is proved
optimal and complete, with the parent chain acyclic and both loops terminating, for every obstacle
map and every goal. The lemmas about single steps and whole runs hold for every strictly consistent
heuristic and for every choice among heap entries of equal F; the program's truncated distance is
shown to be such a heuristic. Three facts shape that proof. `cst` of the start stays 0, so the start
is pushed again with a worse G. Stale heap entries are popped and expanded again. And reads of the
obstacle map may fall outside it, so the map is an arbitrary total function.

Doubles and floats are reals. `rand` is an arbitrary function of the draw. The stream of bytes, the
order of steps of the three threads and the camera image are arbitrary.

What the proofs show about the code:

- `pop` orders by F only: its test `>=` on F comes before the tie-break on H, which therefore never
  applies. The condition under which the two-key order survives is exact.
- When `astar` finds no route it still samples a straight line to the destination, from (-45, -45).
  It happens: a picture with another one or two squares below it, in its column or the one before,
  has its goal cell on an obstacle, and with (5, 5) and (5, 6) no move sequence leads to the second.
- `block` is not cleared by `init`: after a second call exactly the entries that the first call did not
  use hold the count and sums of their label. Two black images in a row are enough.
- The one-way scan of `ant` (`tag == 2 && back_st == 0`) starts at iteration 1 and can miss the best: on
  three points in a line, with random numbers 0 in the first iteration and 999 later, fifty ants find a
  tour of length 20 first and 30 ever after, and 30 is reported however many iterations follow.
- `ACO_to_first` shuffles the tour with its start and then skips the first entry: every one of the 13
  pictures is visited if and only if the first random number is a multiple of 13; otherwise exactly one
  is left out.
- The pickup handshake is in step at the end of a run if and only if a motor tick fell between each
  `pick_flag = 1` and the `put_flag = 1` after it. After one miss it never recovers: every later grab
  starts with `put_flag` low, on the robot's departure. One frame can then cause two grabs, or the servo
  thread can wait for ever.

The comment on `data_analysis` describes fields of `#` frames that start with `X`; the code tests `A`.
The code is followed: any `#` frame raises `uart_flag`.

## Model

| member | source | states |
|---|---|---|
| `Distance.FloorSqrt` | Software/Project/CODE/aco.c:34-38 | The truncated square root: the r with r² ≤ n < (r+1)² |
| `Distance.DistanceChangesSlowly` | Software/Project/CODE/aco.c:34-38 | Triangle inequality of the truncated distance: a displacement of length at most s shortens it by at most s |
| `Distance.CalcDisIs` | Software/Project/CODE/aco.c:34-38 | calc_dis is the floor of the Euclidean distance |
| `Grid.Delta` | Software/Project/CODE/aco.c:502-505 | Every entry of the four move tables is at most 4 long and reaches at most 3 cells in either coordinate |
| `Grid.TableIs` | Software/Project/CODE/aco.c:502-505 | Each table holds exactly the eight displacements of its kind: one step, {1,2}, {2,3}, {1,3} |
| `Grid.CostIsRounded` | Software/Project/CODE/aco.c:564-615 | Every move costs ten times its length, rounded |
| `Grid.LegalIs` | Software/Project/CODE/aco.c:554-604 | A move is legal if and only if its target is a free cell of the 76 x 56 grid and, when it is longer than a diagonal step, no cell exactly as far from where it starts is an obstacle |
| `Grid.HeuristicIsConsistent` | Software/Project/CODE/aco.c:561-563 | For every map and goal, along every move of all four tables F = G + H strictly rises, although H is in cells and truncated while moves cost ten a cell |
| `OpenHeap.PushedIsHeap` | Software/Project/CODE/aco.c:468-479 | push keeps parent F ≤ child F and adds exactly its argument |
| `OpenHeap.PoppedIsHeap` | Software/Project/CODE/aco.c:481-494 | pop keeps the order, removes exactly the root, and the root has the least F |
| `OpenHeap.PushKeepsKeyOrder` | Software/Project/CODE/aco.c:468-479 | push also keeps the two-key order (F, then H) of the comment on it |
| `OpenHeap.PushedRests` | Software/Project/CODE/aco.c:471-478 | The new entry rests at the root or below an entry with a strictly smaller (F, H): it passes equal keys |
| `OpenHeap.PopKeepsKeyOrder` | Software/Project/CODE/aco.c:488-489 | pop keeps the two-key order if and only if its sift-down does not halt above a child of equal F and smaller H; line 489, meant for that case, cannot be reached with F equal |
| `OpenHeap.PopCanLoseKeyOrder` | Software/Project/CODE/aco.c:488-489 | A heap of three entries in two-key order that pop leaves out of it |
| `OpenHeap.Heap.Push` | Software/Project/CODE/aco.c:468-479 | The array version computes the sift-up function and adds one entry to the heap's multiset |
| `OpenHeap.Heap.Pop` | Software/Project/CODE/aco.c:481-494 | The array version returns an entry of least F; the rest of the multiset is conserved |
| `OpenHeap.Heap.SiftDown` | Software/Project/CODE/aco.c:483-492 | The hole-moving loop computes the sift-down function |
| `AStarTheory.NeverReopens` | Software/Project/CODE/aco.c:565-569 | A relaxation never lowers a closed cell's cost, except that the start, whose cst stays 0, is rediscovered |
| `AStarTheory.RelaxKeepsInv` | Software/Project/CODE/aco.c:556-570 | One relaxation keeps the search invariant (sound heap entries, every open cell waiting with its best G, closed cells settled, parents closed and costs adding up) |
| `AStarTheory.ExpandKeepsInv` | Software/Project/CODE/aco.c:554-625 | So does expanding a cell over all four tables |
| `AStarTheory.PoppedIsBest` | Software/Project/CODE/aco.c:538 | A cell popped for the first time comes with its best G |
| `AStarTheory.PopFresh` | Software/Project/CODE/aco.c:538-541 | Popping a new cell closes it and re-establishes the invariant |
| `AStarTheory.PopStale` | Software/Project/CODE/aco.c:538-541 | So does popping a stale entry or the rediscovered start |
| `AStarTheory.StaleExpansionIsIdle` | Software/Project/CODE/aco.c:554-625 | Expanding a closed cell again changes nothing |
| `AStarTheory.WalkIsCovered` | Software/Project/CODE/aco.c:537-626 | Every legal move sequence from the start is accounted for: its end is closed at no greater cost or some heap entry promises an F no larger |
| `AStarTheory.FirstPopIsOptimal` | Software/Project/CODE/aco.c:538-552 | When the goal, or any other cell, is popped for the first time its G is at most the cost of every legal move sequence to it |
| `AStarTheory.EmptyMeansExplored` | Software/Project/CODE/aco.c:537 | When the heap is empty every legal move sequence ends in a closed cell, and none at the goal |
| `AStarTheory.ParentIsCheaper` | Software/Project/CODE/aco.c:566-568 | The parent recorded for a cell other than the start is a discovered cell one legal move away and cheaper by exactly that move, so parent chains are acyclic |
| `AStarTheory.HeapStaysSmall` | Software/Project/CODE/aco.c:10-32 | The heap never holds more than 1 + 32 entries for each cell closed, the start counted even outside the grid |
| `AStarTheory.SettledStays` | Software/Project/CODE/aco.c:565-569 | A legal move once relaxed from a closed cell stays relaxed, since costs only fall |
| `AStarTheory.Turn` | Software/Project/CODE/aco.c:537-626 | Each turn of the main loop keeps the invariant and closes the cell popped; if it was closed before, the turn only shrinks the heap |
| `AStarTheory.KnightMoveIsCheapest` | Software/Project/CODE/aco.c:573-588 | On open ground every cheapest way from (10, 10) to (12, 11) is the single knight move, at 22 |
| `SearchRuns.RunKeepsInv` | Software/Project/CODE/aco.c:537-626 | The invariant holds after every run, whichever entries of least F the pops return, and the closed cells are those popped |
| `SearchRuns.RunIsBounded` | Software/Project/CODE/aco.c:537 | Every run, stale pops included, pops at most one entry for the start and one per move out of each distinct cell popped |
| `SearchRuns.PopsInOrder` | Software/Project/CODE/aco.c:537-538 | Over a whole run F never falls from one pop to a later one |
| `SearchRuns.FirstPopIsCheapest` | Software/Project/CODE/aco.c:538-552 | In every run a cell popped for the first time comes with the cost of some legal move sequence to it, and with the least |
| `SearchRuns.LaterPopIsIdle` | Software/Project/CODE/aco.c:554-625 | In every run popping a cell again, stale entries and the rediscovered start included, changes no cost and no parent and pushes nothing |
| `SearchRuns.FinishedRunPopsAll` | Software/Project/CODE/aco.c:537 | A run that empties the heap has popped every cell that a legal move sequence leads to; the goal is none of them |
| `AStar.WrappedTarget` | Software/Project/CODE/aco.c:557-559 | With coordinates in uint8_t, from cells up to 253, the bounds test accepts exactly the moves that end in the grid |
| `AStar.Planner.Record` | Software/Project/CODE/aco.c:565-569 | Storing F, pushing and storing the parent |
| `AStar.Planner.RelaxMove` | Software/Project/CODE/aco.c:556-570 | One iteration of a move loop on the arrays is one relaxation |
| `AStar.Planner.TableFlag` | Software/Project/CODE/aco.c:572-574 | The product of 1 - obs is nonzero exactly when no target of the table is an obstacle |
| `AStar.Planner.ExpandTable` | Software/Project/CODE/aco.c:574-588 | A move loop relaxes the eight moves of its table in order |
| `AStar.Planner.ExpandNode` | Software/Project/CODE/aco.c:554-625 | The four gated loops relax exactly the legal moves, in order |
| `AStar.Planner.Reset` | Software/Project/CODE/aco.c:523-534 | The memsets and the first push set up an initial state |
| `AStar.Planner.Search` | Software/Project/CODE/aco.c:536-626 | The main loop makes such a run, so it terminates for every map and goal; it stops at the goal with an optimal G or finds that no legal move sequence reaches it |
| `AStar.Planner.ReadBack` | Software/Project/CODE/aco.c:543-549 | The read-back loop terminates at the start; the cells it wrote are a legal move sequence from start to goal of exactly the cost found, and fewer than the grid has cells |
| `PathSampler.PiecesIsLeast` | Software/Project/CODE/aco.c:451-452 | (int)(ds / dis_step + 1) is the least positive number of equal pieces that are all shorter than dis_step |
| `PathSampler.PieceIsShort` | Software/Project/CODE/aco.c:451-453 | Neighbouring samples of a segment are closer than dis_step |
| `PathSampler.EstimateIsClose` | Software/Project/CODE/aco.c:461 | The travel estimates of a segment sum to at most its length and to more than its length less three a piece |
| `PathSampler.Stride` | Software/Project/CODE/aco.c:458-460 | One coordinate of the sampling loop: equal steps after the last sample, earlier samples kept |
| `PathSampler.Accumulate` | Software/Project/CODE/aco.c:461 | The travel estimates grow by the same amount per sample |
| `PathSampler.Row.MakePath` | Software/Project/CODE/aco.c:443-466 | make_path cuts a segment into equal pieces after the last sample, starting from its first point only in an empty row |
| `PathSampler.GrownReachesCorner` | Software/Project/CODE/aco.c:458-465 | Over the reals a segment that starts at the last sample ends exactly at its second point, and earlier corners stay |
| `PathSampler.ExtendPolyline` | Software/Project/CODE/aco.c:443-466 | Chained calls on contiguous segments: the samples run from the first corner through every corner to the last with no gap as long as dis_step |
| `Route.StepIs` | Software/Project/CODE/aco.c:5 | A straight segment of k times 15 takes k + 1 samples |
| `Route.MovePieces` | Software/Project/CODE/aco.c:631-633 | A grid move takes at most three samples at the step of 15 |
| `Route.SampleRoute` | Software/Project/CODE/aco.c:631-633 | The sampling loop follows the read-back route from start to goal |
| `Route.FindRoute` | Software/Project/CODE/aco.c:522-552 | Search and read-back together: a cheapest legal move sequence, or proof that there is none and an empty, zeroed route buffer |
| `Route.Astar` | Software/Project/CODE/aco.c:522-637 | The sampled row runs along a cheapest legal route to the goal and on to the destination; when the goal is out of reach it runs straight from (-45, -45), the point the zeroed buffer denotes |
| `PictureMap.BlocksIs` | Software/Project/CODE/aco.c:510-515 | A picture blocks the cells whose centres lie within 15 of its square's corner in both coordinates |
| `PictureMap.BlocksSixteen` | Software/Project/CODE/aco.c:513-515 | ... exactly sixteen of them |
| `PictureMap.CentresAre` | Software/Project/CODE/aco.c:631-634 | Cell centres are ten apart, and those of the base lie around the origin |
| `PictureMap.CellIsNear` | Software/Project/CODE/aco.c:670 | The cell planned to for a point is the one whose centre is nearest, within 5 |
| `PictureMap.CentreOfCell` | Software/Project/CODE/aco.c:631-670 | Converting a cell to its centre and back gives the cell |
| `PictureMap.AstarInit` | Software/Project/CODE/aco.c:507-518 | The map blocks sixteen cells for each picture and frees the four of the base |
| `PictureMap.StandIsBlocked` | Software/Project/CODE/aco.c:653-670 | The cell planned to for a picture is in the grid; it is an obstacle if and only if it is not in the base and another picture stands in its column or the one before, one or two squares lower |
| `PictureMap.BlockedGoal` | Software/Project/CODE/aco.c:556-559 | No legal move sequence leads to a goal on an obstacle |
| `PictureMap.GoalOffGrid` | Software/Project/CODE/aco.c:559 | ... nor to a goal outside the grid |
| `PictureMap.CrowdedPicture` | Software/Project/CODE/aco.c:507-518 | Two pictures of which the second is out of reach from every other cell, so that `astar` takes its not-found branch |
| `LinkedQueue.Queue.constructor` | Software/Project/CODE/coor_pick.c:21-27 | A new queue is empty |
| `LinkedQueue.Queue.Enqueue` | Software/Project/CODE/coor_pick.c:29-47 | Appends one item; nodes stay a chain of distinct nodes from head to tail |
| `LinkedQueue.Queue.IsEmpty` | Software/Project/CODE/coor_pick.c:49 | True exactly of the empty queue |
| `LinkedQueue.Queue.Dequeue` | Software/Project/CODE/coor_pick.c:51-64 | Removes and returns the oldest item, also the last one |
| `Regions.NeighboursAre` | Software/Project/CODE/coor_pick.c:124 | The first four directions lead to exactly the pixels that share a side, all eight to those that share a side or a corner |
| `Regions.TouchesIs` | Software/Project/CODE/coor_pick.c:229-237 | A pixel goes on the edge list exactly if it is an unlabelled one of the other class next to the pixel scanned |
| `Regions.VisitKeeps` | Software/Project/CODE/coor_pick.c:227-242 | Looking at one neighbour keeps the list of labelled pixels distinct, inside the region and in its colour class |
| `Regions.OrderIsRegion` | Software/Project/CODE/coor_pick.c:223-243 | When every listed pixel is scanned the list is exactly the region of the seed |
| `Regions.BorderCounts` | Software/Project/CODE/coor_pick.c:232-237 | A pixel is in the edge list once for each adjacency across the region's edge |
| `Regions.BorderMembers` | Software/Project/CODE/coor_pick.c:232-237 | The edge list names exactly the unlabelled pixels of the other class that touch the region |
| `FloodFill.TallyAdd` | Software/Project/CODE/coor_pick.c:198-202 | Counts and coordinate sums of a set of pixels grow by a pixel |
| `FloodFill.Image.Paint` | Software/Project/CODE/coor_pick.c:220-221 | Labelling a pixel keeps the block entry equal to the tally of the pixels labelled so far |
| `FloodFill.EnqueuePixel` | Software/Project/CODE/coor_pick.c:241 | The two coordinate queues stay in step |
| `FloodFill.DequeuePixel` | Software/Project/CODE/coor_pick.c:225 | ... when a pixel is taken out as well |
| `FloodFill.Image.Probe` | Software/Project/CODE/coor_pick.c:227-242 | One iteration of the inner loop labels, lists on the edge, or skips exactly as the neighbour requires |
| `FloodFill.Image.ScanNeighbours` | Software/Project/CODE/coor_pick.c:227-242 | The inner loop scans all neighbours and appends the popped pixel's edge pixels in order |
| `FloodFill.Image.Drain` | Software/Project/CODE/coor_pick.c:223-243 | The outer loop terminates with every labelled pixel scanned, tallied and its border listed |
| `FloodFill.Image.Fill` | Software/Project/CODE/coor_pick.c:217-243 | The same from the seed on |
| `FloodFill.Image.BFS` | Software/Project/CODE/coor_pick.c:215-244 | Labels exactly the pixels reachable from the seed through unlabelled pixels of its colour class, changes no other label, adds their count and coordinate sums to the block entry and, with tag, their edge list to edge |
| `Labelling.FillIsComponent` | Software/Project/CODE/coor_pick.c:265-291 | From an unlabelled pixel the fill covers its whole connected component, none of which was labelled |
| `Labelling.CloseShare` | Software/Project/CODE/coor_pick.c:276-291 | Pixels of a class share their component when they are next to each other: black ones across a side, white ones across a side or a corner |
| `Labelling.LonelyPixel` | Software/Project/CODE/coor_pick.c:276-291 | A pixel with none of its class next to it in that sense is a component by itself |
| `Labelling.NewLabelOk` | Software/Project/CODE/coor_pick.c:276 | Labelling one more component keeps every label equal to exactly one component |
| `Labelling.NewLabelTallied` | Software/Project/CODE/coor_pick.c:220-221 | ... and every block entry equal to what it held plus its label's tally |
| `Labelling.CoveredIff` | Software/Project/CODE/coor_pick.c:263-292 | A pixel is labelled if and only if its component holds a starting pixel, and two pixels share a label if and only if they share a component |
| `Labelling.RoomForLabel` | Software/Project/CODE/coor_pick.c:276 | There are never more labels than pixels |
| `Labelling.NewFringe` | Software/Project/CODE/coor_pick.c:232-237 | A background fill extends the edge list by exactly the white pixels newly beside labelled background |
| `Labelling.WhiteLabelKeepsEdge` | Software/Project/CODE/coor_pick.c:287-292 | Filling white pixels leaves the fringe as it was |
| `Labelling.LabelComponent` | Software/Project/CODE/coor_pick.c:276 | BFS followed by ++cnt from an unlabelled pixel |
| `Labelling.ClearAround` | Software/Project/CODE/coor_pick.c:268-273 | flag is set exactly when no pixel of the 3 x 3 neighbourhood is white |
| `Labelling.SearchBackground` | Software/Project/CODE/coor_pick.c:261-277 | The search from the centre labels exactly the components of the starting pixels and lists exactly their white fringe |
| `Labelling.SearchPictures` | Software/Project/CODE/coor_pick.c:287-292 | The search along the fringe labels the component of every fringe pixel |
| `Labelling.LabelImage` | Software/Project/CODE/coor_pick.c:259-292 | Both searches together: one label per component, labelled exactly from the starting and fringe pixels, edge exactly the fringe, blocks grown by their label's tally |
| `Labelling.StartsAre` | Software/Project/CODE/coor_pick.c:262-275 | The starting pixels are those black ones with 84 <= x < 104 and 50 <= y < 70 around which no pixel of the 3 x 3 is white |
| `Labelling.LabelledTogether` | Software/Project/CODE/coor_pick.c:259-292 | On the labelled arrays, pixels of a class that are next to each other carry one label |
| `Labelling.EdgeIs` | Software/Project/CODE/coor_pick.c:232-237 | On the arrays, edge names exactly the white pixels that share a side with a labelled pixel that is not white |
| `Labelling.BlackHasOneLabel` | Software/Project/CODE/coor_pick.c:259-277 | A labelling of a black image gives every pixel the label 0 |
| `Labelling.LabelBlack` | Software/Project/CODE/coor_pick.c:259-292 | init on a black image: one label, on all 22560 pixels, counted once |
| `Labelling.TallyNeedsClearedBlock` | Software/Project/CODE/coor_pick.c:294-296 | A block entry is its label's tally if and only if it was zero before; init does not clear it |
| `Labelling.LabelTwice` | Software/Project/CODE/coor_pick.c:385-389 | Two calls, on any two images: after the second an entry holds its label's tally if and only if the first did not use it; an image with a starting pixel uses one |
| `Labelling.UnclearedBlock` | Software/Project/CODE/coor_pick.c:385-389 | Two black images in a row, after which the entry of label 0 counts 2 * 22560 pixels where the label has 22560 |
| `Labelling.BlackImageStarts` | Software/Project/CODE/coor_pick.c:263-273 | A black image has a starting pixel |
| `LineDrawer.NearestIs` | Software/Project/CODE/coor_pick.c:704-720 | Characterises the nearest integer to a quotient, halves up |
| `LineDrawer.OffsetStep` | Software/Project/CODE/coor_pick.c:714-718 | The error tests take the closed-form pixel k to pixel k + 1 and keep err exact |
| `LineDrawer.OffsetEnds` | Software/Project/CODE/coor_pick.c:712-713 | The exit test holds at the last pixel and at no earlier one |
| `LineDrawer.LineIsConnected` | Software/Project/CODE/coor_pick.c:714-718 | Consecutive pixels are distinct and adjacent and the line never turns back |
| `LineDrawer.LineIsClose` | Software/Project/CODE/coor_pick.c:704-720 | Every pixel lies within half a pixel of the ideal line |
| `LineDrawer.DrawLine` | Software/Project/CODE/coor_pick.c:704-720 | The drawer terminates and sets exactly the pixels of the closed-form line |
| `PerspectiveGrid.ProxIsOnLine` | Software/Project/CODE/coor_pick.c:66-83 | A point between two points lies on the line through them |
| `PerspectiveGrid.CrossIsUnique` | Software/Project/CODE/coor_pick.c:85-104 | Off the guard, get_cross returns the only point on both lines |
| `PerspectiveGrid.CrossIsOnLines` | Software/Project/CODE/coor_pick.c:85-104 | ... and that point is on both |
| `PerspectiveGrid.GridPointIsBilinear` | Software/Project/CODE/coor_pick.c:314-323 | The crossing of the two ruling lines at (lam_x, lam_y) is the bilinear interpolation of the corners, or (-1, -1) under the guard |
| `PerspectiveGrid.GuardedPoint` | Software/Project/CODE/coor_pick.c:97-98 | The guard fires exactly when the cross product of the two ruling lines' directions is within 0.001 of zero |
| `PerspectiveGrid.GridSides` | Software/Project/CODE/coor_pick.c:311-323 | Index (i, j) counts 35ths from the lx-ls side and 25ths from the lx-rx side: the four sides of rec divide the four sides of the picture |
| `PerspectiveGrid.EvenGrid` | Software/Project/CODE/coor_pick.c:311-323 | For a rectangle seen straight on, rec is the even grid |
| `PerspectiveGrid.FillGrid` | Software/Project/CODE/coor_pick.c:311-325 | rec holds that point for every grid position; its corners are lx, rx, ls and rs and its two sides from lx are divided evenly |
| `Tours.RandN` | Software/Project/CODE/aco.c:153-157 | A number drawn between x and y is at least x and less than y |
| `Tours.RandNIs` | Software/Project/CODE/aco.c:153-157 | ... and it is the random number's last three digits in thousandths of the way |
| `Tours.UnvisitedAscends` | Software/Project/CODE/aco.c:206-207 | The candidates are in ascending order |
| `Tours.SlotIsUnique` | Software/Project/CODE/aco.c:212-218 | With positive weights the wheel stops in at most one slot |
| `Tours.FullTourVisitsAll` | Software/Project/CODE/aco.c:198-219 | n distinct points below n are all the points |
| `AntColony.Spin` | Software/Project/CODE/aco.c:212-218 | The selection loop always stops, in the slot that rate falls into |
| `AntColony.Colony.InitTag` | Software/Project/CODE/aco.c:96-110 | Distances, their inverses to the fifth power and unit pheromones; distances come out symmetric, positive off the diagonal, inverses positive |
| `AntColony.Colony.RaiseInverses` | Software/Project/CODE/aco.c:149-150 | idis is raised to the power beta = 5 |
| `AntColony.Colony.Choose` | Software/Project/CODE/aco.c:199-218 | Each move goes to a point not visited yet: the one its wheel stops on |
| `AntColony.Colony.SlotFollowsPheromone` | Software/Project/CODE/aco.c:209-210 | Scaling the pheromone on the way to a candidate scales its slot on the wheel |
| `AntColony.Colony.SlotRatio` | Software/Project/CODE/aco.c:209-210 | Candidates equally near have slots in the ratio of their pheromones; candidates with equal pheromones in the ratio of their inverse distances |
| `AntColony.Colony.BuildRoutes` | Software/Project/CODE/aco.c:186-219 | For every sequence of random numbers every ant's route is a tour of all points from the start point, move by move the wheel's choice |
| `AntColony.Colony.Measure` | Software/Project/CODE/aco.c:220-225 | len holds the lengths of the tours |
| `AntColony.Colony.KeepBest` | Software/Project/CODE/aco.c:226-233 | The first shortest tour of the iteration is recorded with its length; other records stay |
| `AntColony.Colony.BestIsPermutation` | Software/Project/CODE/aco.c:231-233 | A record is a permutation of the points that begins at the start point and is no longer than any tour of its iteration |
| `AntColony.Colony.DepositAnt` | Software/Project/CODE/aco.c:235-238 | An ant adds its amount once to each pair of points its tour joins, both ways, and nowhere else |
| `AntColony.Colony.Deposit` | Software/Project/CODE/aco.c:234-245 | All ants: delta_pher grows by Q over the tour length for each tour that joins the pair, and stays symmetric |
| `AntColony.Colony.UpdateTrails` | Software/Project/CODE/aco.c:234-248 | pher decays and grows by delta_pher; both stay symmetric, pher stays positive, delta_pher never falls |
| `AntColony.Colony.RolledIsUnique` | Software/Project/CODE/aco.c:208-218 | Under positive pheromones a random number decides the next point |
| `AntColony.Colony.Iterate` | Software/Project/CODE/aco.c:185-250 | One iteration: every ant's tour is the one its random numbers give under the pheromones found, the first shortest is recorded, the pheromones follow from the tours |
| `AntColony.Colony.IteratedIsUnique` | Software/Project/CODE/aco.c:185-250 | The random numbers and the pheromones found decide an iteration: its tours, its best and the next pheromones |
| `AntColony.Colony.RunIterations` | Software/Project/CODE/aco.c:181-250 | All iterations: a chain of such iterations from the pheromones found and no deposits, each with its record in len_best and path_best |
| `AntColony.Colony.RunKeepsHealthy` | Software/Project/CODE/aco.c:234-248 | At every point of a run pher and delta_pher are symmetric and pher positive, and delta_pher never falls from any iteration to a later one |
| `AntColony.Colony.RunIsUnique` | Software/Project/CODE/aco.c:181-250 | Two runs from the same pheromones with the same random numbers have the same tours, records and pheromones throughout |
| `AntColony.Colony.PickBest` | Software/Project/CODE/aco.c:252-260 | The scan reports the least recorded length plus leg home, at its first iteration, if that is below 0x3f3f3f3f |
| `AntColony.Colony.Ant` | Software/Project/CODE/aco.c:177-295 | The whole run: the chain of iterations with its records, and the route stored, which is the record picked |
| `AntColony.Colony.PlanRoute` | Software/Project/CODE/aco.c:653-659 | init_tag(0) and ant(20, ..., n - 1, 1, 0, 0) from end to end: the route stored is a permutation of all points that begins at the last; the length returned is its length with the leg home and least of all iterations, under the exact condition, and always if no distance is large |
| `AntColony.Colony.HomeIsNear` | Software/Project/CODE/aco.c:252-260 | If n times every distance and every leg home are at most half of 0x3f3f3f3f, every tour with its leg home is below it |
| `AntColony.FullScanIsBest` | Software/Project/CODE/aco.c:254-263 | In the returning modes the length reported is that of the route stored and minimal over all iterations, if and only if some total is below 0x3f3f3f3f or the first equals it |
| `AntColony.LateScanIsBest` | Software/Project/CODE/aco.c:278-283 | In the one-way mode, whose scan starts at iteration 1, the length reported is the minimum if and only if some later iteration is no worse than iteration 0 |
| `LateScan.FirstMove` | Software/Project/CODE/aco.c:208-218 | On three points in a line, the exact threshold, in pheromone times inverse distance, of the random number that leads to the near point |
| `LateScan.FirstLevels` | Software/Project/CODE/aco.c:234-248 | After fifty ants walk the short way the pheromones from the start are exactly 3.4 and 0.9 |
| `LateScan.PheromonesDecide` | Software/Project/CODE/aco.c:209-218 | So the random number 980 leads to the far point before that iteration and to the near one after it |
| `LateScan.HomeFromLast` | Software/Project/CODE/aco.c:256-257 | The leg home is taken from the last point of a tour |
| `LateScan.StaysWithin` | Software/Project/CODE/aco.c:185-248 | The pheromones stay that balanced through every iteration of fifty ants, so the first tour is the short one and each later one the long one |
| `LateScan.LateScanMisses` | Software/Project/CODE/aco.c:278-283 | So in every such run of two or more iterations the scan reports 30 although the first iteration recorded 20 |
| `LateScan.RunLateScan` | Software/Project/CODE/aco.c:177-295 | The same from calling init_tag(0) and ant on those points with those random numbers |
| `Shuffle.Probe` | Software/Project/CODE/aco.c:167-168 | The cyclic probe terminates at the nearest free slot, all slots on the way up to it being taken |
| `Shuffle.DrawnUpwards` | Software/Project/CODE/aco.c:166-169 | A draw counts up from the last slot plus the random number, modulo n, past slots that earlier draws took |
| `Shuffle.ShuffleArray` | Software/Project/CODE/aco.c:159-173 | For every sequence of random numbers the array becomes a permutation of what it was, in the order drawn |
| `Shuffle.TakeOne` | Software/Project/CODE/aco.c:169 | Taking a free slot removes exactly its element from what is left |
| `FirstTask.ShuffledIsTour` | Software/Project/CODE/aco.c:764-767 | The shuffled tour still holds every point once, and begins with the base if and only if the first random number is a multiple of 13 |
| `FirstTask.PictureLeftOut` | Software/Project/CODE/aco.c:764-780 | All 13 pictures are visited if and only if the first random number is a multiple of 13; otherwise exactly one, the one shuffled to the front, is left out |
| `FrameSync.Receive` | Software/Project/CODE/more_uart.c:77-95 | The first marked offset wins and its 21 bytes are copied; with none the buffer keeps the old frame and the status is the header error |
| `FrameSync.FirstMarkIs` | Software/Project/CODE/more_uart.c:79-88 | The offset found is the first of 0..21 at which a header byte has a newline twenty bytes on |
| `FrameSync.WindowHoldsAFrame` | Software/Project/CODE/more_uart.c:79-88 | In any 42-byte window of a stream of frames the search succeeds and finds exactly the first frame that lies in it whole |
| `FrameSync.FieldRoundTrip` | Software/Project/CODE/more_uart.c:213-220 | Reading a DDD.D field gives back the number written |
| `FrameSync.ReadingStays` | Software/Project/CODE/more_uart.c:209-221 | With pic_flag set, for a frame other than '@', and for a field whose letter is missing, the reading stays |
| `FrameSync.SampleReading` | Software/Project/CODE/more_uart.c:209-221 | The frame of one pose, spelled out by `FrameSync.SampleFrame`, reads 123.4, 56.7, -89.0 |
| `FrameSync.PoseRoundTrip` | Software/Project/CODE/more_uart.c:209-221 | Reading an '@' frame gives back the pose, rotation sign included |
| `FrameSync.ReceivePose` | Software/Project/CODE/more_uart.c:77-93 | End to end: from any window of a stream of pose frames the receiver reads exactly the first pose whose frame begins in it |
| `Handshake.FlagsChange` | Software/Project/CODE/motor.c:530-613 | Which step raises and which clears each flag and motion 13: a departing tick clears all four at once |
| `Handshake.StepKeepsInv` | Software/Project/CODE/motor.c:530-613 | Each step of data thread, motor tick and servo thread keeps the handshake invariant if and only if it does not raise put_flag before a tick has seen pick_flag |
| `Handshake.StepStaysOut` | Software/Project/CODE/motor.c:530-613 | A missed put leads out of step, and no step of any thread leads back |
| `Handshake.TimelyIffInStep` | Software/Project/CODE/motor.c:530-613 | At the end of every run the invariant holds if and only if no put of the run was missed, and otherwise the threads are out of step |
| `Handshake.PutFlagIffTimely` | Software/Project/CODE/motor.c:557-570 | In every run, when a grab is about to start put_flag is up if and only if no put was missed |
| `Handshake.MissedPutNeverHeals` | Software/Project/CODE/motor.c:530-613 | After a missed put every later grab starts with put_flag low, and a departure has come since the grab before it |
| `Handshake.TimelyRunIsSafe` | Software/Project/CODE/motor.c:530-613 | At the end of every timely run each departure has used up one completed grab and one '#' frame, and a grab about to start has a frame that no departure has used, with the put and the departure before it done |
| `Handshake.NewFrameForEachGrab` | Software/Project/CODE/motor.c:530-613 | Between any two grabs of a timely run the first is completed, then the robot departs and uses up its frame, and after that it arrives at a picture again, a new '#' frame comes and the put is finished |
| `Handshake.PickupCompletes` | Software/Project/CODE/motor.c:530-613 | The pickup as meant ends with the robot on its way and every flag as it was |
| `Handshake.MissedTickGrabsTwice` | Software/Project/CODE/motor.c:530-613 | A run without the tick in time in which one frame leads to two grabs |
| `Handshake.StuckForEver` | Software/Project/CODE/motor.c:559-630 | Once waiting with put_flag and servo_flag_ctrl both clear, no grab ever starts again |
| `Handshake.MissedTickCanStick` | Software/Project/CODE/motor.c:568-629 | A tick that comes only between put_flag = 1 and servo_flag_ctrl = 0 leads there |
| `Handshake.Car.constructor` | Software/Project/CODE/motor.c:25-43 | flag_init establishes the initial state |
| `Handshake.Car.MotorTick` | Software/Project/CODE/motor.c:174-176 | The tick calls wait_get only in motion 13 |
| `Handshake.Car.WaitGet` | Software/Project/CODE/motor.c:530-542 | wait_get on the flags is the tick step |
| `Handshake.Car.OnArrival` | Software/Project/CODE/motor.c:348 | Arriving sets motion 13 |
| `Handshake.Car.OnHashFrame` | Software/Project/CODE/more_uart.c:225-271 | A '#' frame raises uart_flag |
| `Handshake.Car.ServoTurn` | Software/Project/CODE/motor.c:557-632 | The pickup cases of the servo loop, one flag access at a time, are its four steps in order |

## Left out

- Array capacities of the program: `heap` (1000), `roux`/`rouy` (103) and the rows of `path_x`/`path_y`/`path_predis` (103) are given the sizes the proofs need (1 + 32 entries a cell; one place a cell; three samples a cell and the last segment), `edge` is a list without limit, `block` has as many entries as the image has pixels. Whether the program's own sizes suffice is not decided.
- Machine widths beyond `uint8_t` coordinates: `int` is unbounded, labels are not narrowed to `int8_t`, and the product of `1 - obs` does not overflow.
- Floating-point rounding, and with it the case that rounding keeps the roulette loop from stopping.
- `AStar.Planner.Search`: the start's coordinates are in 0..253, inside the grid or not; the callers pass grid cells. From 254 and 255 moves wrap through `uint8_t` into the grid. Beyond 0..255 the cell pushed is the start modulo 256, which the test of the read-back loop never equals, so that loop does not end at it.
- `AStar.Planner.Reset`: the start's coordinates are in 0..253.
- `Route.FindRoute`: the start's coordinates are in 0..253.
- `AStar.Planner.Search`: the program has one function and one loop per table; the model has a method per loop, and one loop over the tables.
- `PathSampler.Row.MakePath`: the three arrays are filled by three loops where the program has one; the unused heading is left out.
- `Route.Astar`: the start's coordinates are in 0..253, and the row is empty on entry, as for every fresh `num_path`.
- `AntColony.Colony.Ant`: the scans of the four modes differ in where they start and in the leg home, which are parameters; the legs of `calc_tag` are not computed.
- `AntColony.Colony.Ant`: a start point of -1, the unused `sum_len`, and `ant_ori`.
- `LateScan.RunLateScan`: the distances are those of init_tag(0), while `run_twice1` fills them by tag 2.
- `AntColony.Colony.InitTag`: tags 1 and 2, and two pictures at the same point, for which the program divides by zero.
- `Shuffle.ShuffleArray`: the scratch tables hold 13 entries, so more are not allowed.
- `FrameSync.Receive`: the receive buffer is not overwritten while it is searched.
- The `&` and `%` frames, and class and path bookkeeping of `#` frames.
- `Handshake.Car.ServoTurn`: drop cases 4 to 6, servo positions, delays and `drop_tail_flag`; `servo_flag` is a pickup case.
- The averages and the size filter that turn blocks into pictures, the search for the nearest grid point, thresholding and corner matching.
- The callers that prepare points and chain the planner's calls, apart from the planning of `no_trans_task`.
- `PictureMap.AstarInit`: a picture outside the table, for which the program writes beyond it.
- Heading and motion control, LCD, encoder, IMU, watchdog, flash and vendor drivers.
