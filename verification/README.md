# QuantumSTEP web kits: a verified model

The repository's web side is written in PHP. `AppKit/Sources/AppKit.php` is a widget kit that
lives from request to request: every HTTP request builds the tree of views again, numbers it by
counting, restores public properties from the posted form, collects and delivers the events the
form stands for, draws a page, and writes every property that changed back into that page.
`PDFKit/PDFKit.php` flows text into boxes, and `Message/Message.php` composes mail of several
parts. This project models that behaviour and proves what it keeps over whole requests, runs and
messages.

## How the model is laid out

- `Php.dfy`: values under strict and loose comparison, decimal text, and arrays that keep their
  keys. `Persistence.dfy`: persistors (`_NSPersist`), kept as records in the list of the view
  that owns them, reading and writing a form.
- `Pages.dfy`: the abstract value of a window, a `Forest` of views (subviews, and apart from them
  the views of tab items), with one function for each pass: `Display`, `Done`, `WritePersist`,
  and what a browser posts of a page (`Echo`). `PageLaws.dfy` and `RoundTrip.dfy` prove what a
  page holds and what of a window reaches the next request; `Naming.dfy` why names do not clash.
- `Retouch.dfy`: what stays the same when the passes of a request change properties.
  `Showing.dfy`: what displaying changes before the page is written, and that it does so once.
- `Dispatch.dfy`: collecting, hit testing and delivering on the same forests. `Actions.dfy`: what
  a mouseDown does, and where its action goes. `Grids.dfy`: matrices of buttons as values;
  `Matrices.dfy`: what clicks do to the value of a matrix anywhere in the window. `Delivery.dfy`:
  collecting, delivering and actions end to end.
- `Controls.dfy`: which selects and which submit buttons of tabs a page has. `PopUp.dfy`: how a
  pop-up button notices what was picked from its select. `Requests.dfy`: any number of requests, each
  of which builds the whole window again from the form that was posted for its last page.
  `Toggles.dfy`: checkboxes and single radio buttons over such requests.
- `Surgery.dfy`, `Hierarchy.dfy`, `Links.dfy`: grafting and pruning, and what adding and removing
  subviews does to the links of every view.
- `Views.dfy`: the objects. `NSView` has the fields of the PHP class and, told apart by `kind`,
  those of scroll views, text fields, buttons, pop-up buttons, tab views, matrices and collection views; `Rep`
  says which forest a set of linked objects stands for. Every method is proved to compute the
  function of `Pages`, `Dispatch`, `Actions` or `Hierarchy` that specifies it, so the laws above
  are laws of the objects.
- `Registry.dfy`: the table of responders and its numbering.
- `Markup.dfy`: the tables that collection views and matrices lay out, and a reader of them.
- `TableCells.dfy`, `Tables.dfy`: table views, whose rows all share the cell of their column.
- `Text.dfy`, `PdfFlow.dfy`: lines of text, and their flow into boxes and over pages.
- `Base64.dfy`, `QuotedPrintable.dfy`, `Mail.dfy`: messages of several parts, and a receiver that
  decodes each part as its header says.

Conventions. `==` between objects is identity. The loose `!=` between a posted string and a table
value is a parameter, of which only that no value differs from itself is used. An index that went
through a page is a string; `Php.Num` and `Php.KeyOf` say which number it still stands for. The
browser posts every named control of a page as it stands. The wrapping of `addTextWrap` is an
arbitrary function of the call, the height and the line; only that it splits the line is used.
Text is in the target encoding.

## Where the code does not do what one would expect

Each of these is stated exactly, in both directions where there are two:

- A text field is lost exactly if it is neither drawn nor still hidden when it decides about its
  hidden input, or is a label, and holds text (`RoundTrip.PropertyCarried`); tab views within tab
  views bring that about (`RoundTrip.NestedTabsLoseText`).
- `addSubview` accepts every other view without a superview. The links are then those of a forest
  exactly if that view tops a tree that the new superview is not part of
  (`Links.AdditionKeepsForest`). Two kinds of addition are accepted and are not: the top of the
  view's own tree, and the view of a tab item (`Links.ItemViewIsAccepted`).
- Displaying comes before writing and changes what is written: a radio matrix on display derives
  the states of its buttons from its selection, and a scroll view at the top forgets its position.
  What reaches the next request is the displayed window (`RoundTrip.WindowRoundTrip`).
- A pressed button of a radio matrix ends up as the only one on exactly if nothing but it and the
  recorded selection was on and the matrix finds the button again: its key is its place, or no
  button has that key and the press itself turned it on (`Delivery.PostedButtonIsOn`). In a matrix
  of two buttons that lost a cell before them, pressing the second one turns both on
  (`Delivery.ThinnedMatrixFails`).
  Displaying repairs every other case (`Requests.PressedIsShown`). A radio button in a matrix
  cannot be switched off by pressing it again (`Delivery.PostedButtonChanges`).
- A page that nobody touched still counts as a change of a pop-up button exactly if its selection is
  none of its items: the browser then posts the first one (`PopUp.UntouchedIsQuiet`).
- Without a script every button goes off when a page is posted (`Toggles.WithoutScriptGoesOff`).
- After `setContentView` a window has no content view, because the key of the removed one is not
  used again (`Views.NSWindow.SetContentView`, `Php.FirstKeyIsNotReused`).
- The last row of a matrix is left open exactly if there are several columns and it has one cell
  (`Markup.TableReads`).
- `cellAtRowColumn` and `getRowColumnOfCell` undo each other exactly for cells whose key is their
  position (`Grids.CellAtItsCoordinates`, `Views.NSView.CellAtRowColumn`).
- A cell that is given the id it already has drops out of the table of responders
  (`Registry.SameIdDropsObject`, `Tables.NSTableView.CollectEntry`).
- A composed message splits back into its parts exactly if no string part has a line that begins
  with the delimiter (`Mail.MultipartRoundTrip`); the last part always gains one newline.
- String parts are announced as quoted-printable and sent as they are. A string arrives exactly if
  no line of it ends in a blank or an equals sign and no equals sign is followed by two
  hexadecimal digits (`Mail.EveryPartArrives`); a=3D arrives as a= (`Mail.EscapeIsLost`).

## Model

| member | source | states |
|---|---|---|
| `Php.KeySurvivesText` | AppKit/Sources/AppKit.php:2323-2328 | the tab item that an index selects is the same before and after the index went through a page as text |
| `Php.KeyOfText` | AppKit/Sources/AppKit.php:2323-2328 | an index selects the tab item whose place it is as a number or as exactly the decimal text of one; other text and null select none |
| `Php.NumSurvivesText` | AppKit/Sources/AppKit.php:142-150 | a number that was written into a page and read back as a string still counts as the same number |
| `Php.FirstKeyIsNotReused` | AppKit/Sources/AppKit.php:696-703 | after removing the element under key 0 and appending another, key 0 is empty unless the array never held anything |
| `Persistence.AutoNameInjective` | AppKit/Sources/AppKit.php:111-116 | two automatic names are equal only for the same id and the same property, as long as property names hold no dash |
| `Persistence.AutoNameHasDash` | AppKit/Sources/AppKit.php:111-116 | a global name such as NSEvent or scrollX is never an automatic name |
| `Naming.DistinctIdsMakeNamesUnique` | AppKit/Sources/AppKit.php:111-135 | no two persistors of a window with distinct ids look under a common name, also where some were renamed, as those of every scroll view are: to names without a dash, none given twice |
| `Naming.NumberedWindowIsUnique` | AppKit/Sources/AppKit.php:288-293 | from the empty table, over every legal run of constructions and renamings: the views of any window have distinct ids, and no two of its persistors look under a common name |
| `PageLaws.DrawnExactlyOnce` | AppKit/Sources/AppKit.php:752-769 | displaying a list of trees calls draw exactly once on every view that is reached top down without being hidden, is no tab view, matrix or collection view, and never on another |
| `PageLaws.DrawnAfterSubviews` | AppKit/Sources/AppKit.php:752-769 | children before parents: the draw of a view comes right after the whole output of its subviews |
| `PageLaws.DrawnIffNotHidden` | AppKit/Sources/AppKit.php:718-725 | without tab views, being drawn is the same as isHidden being false: the top-down skip agrees with the bottom-up climb |
| `PageLaws.HiddenAfterIsHidden` | AppKit/Sources/AppKit.php:2460-2469 | the flags that the finishing pass leaves behind are the ones by which each view decided |
| `PageLaws.DisplayValues` | AppKit/Sources/AppKit.php:2978-3041 | under each name of a view the displayed page holds what that view drew if it was drawn, and nothing from any other view |
| `PageLaws.DisplayShown` | AppKit/Sources/AppKit.php:2119-2157 | what displaying changes does not show: displaying the window again gives the same output |
| `Showing.ShownFate` | AppKit/Sources/AppKit.php:752-784 | displaying changes nothing by which the passes decide what is drawn and what is hidden |
| `Showing.ShownAt` | AppKit/Sources/AppKit.php:2119-2157 | displaying changes the state of buttons and the position of scroll views, and no other property |
| `Showing.ShownTwice` | AppKit/Sources/AppKit.php:2129-2157 | displaying a displayed window again changes nothing |
| `Showing.ShownScroller` | AppKit/Sources/AppKit.php:3151-3183 | exactly a scroll view that is on display and has no superview ends with empty scrollX and scrollY; every other one keeps its position |
| `Showing.PageOfShown` | AppKit/Sources/AppKit.php:3352-3358 | the page of a window is the page of what displaying makes of it |
| `RoundTrip.DoneDecides` | AppKit/Sources/AppKit.php:3045-3050 | the finishing pass changes the persistor of a text field by the hidden state that holds after tab views marked their items, wherever the field is |
| `RoundTrip.PageValues` | AppKit/Sources/AppKit.php:152-166 | all values the page has under a name a persistor reads: what its view drew, then the hidden input it still writes, both of the view as displaying leaves it |
| `RoundTrip.RebuildShown` | AppKit/Sources/AppKit.php:118-150 | building a window from a form gives the same window whether or not the old one had been displayed |
| `RoundTrip.TextFieldInputs` | AppKit/Sources/AppKit.php:2978-3050 | draw and persist agree: an editable text field has one input if drawn, one if hidden at the end with a value other than its default, and none otherwise; never two |
| `RoundTrip.FieldInputs` | AppKit/Sources/AppKit.php:2978-3050 | every text field: an input if it is editable and on display, without its text if it is a password, and a hidden input if its string is not the default and no input of its own carries it; a label has neither; without a custom name all go under the id, a dash and string |
| `RoundTrip.DrawnIsNotHidden` | AppKit/Sources/AppKit.php:2460-2469 | a view that was drawn is not hidden when it decides about persisting |
| `RoundTrip.PropertyCarried` | AppKit/Sources/AppKit.php:118-166 | a property, as displaying leaves it, has the same text in the next request if and only if its view survives, and then holds that value up to string conversion |
| `RoundTrip.WindowRoundTrip` | AppKit/Sources/AppKit.php:779-784 | writing a whole window into its page and building it again gives the displayed forest with every property converted: states that radio matrices derive while displaying and positions that scroll views drop then are carried as displayed |
| `RoundTrip.SecondRoundTrip` | AppKit/Sources/AppKit.php:779-784 | the window built from a page is already displayed and converted: a second round trip changes nothing at all |
| `RoundTrip.TameWindowSurvives` | AppKit/Sources/AppKit.php:2460-2475 | if every tab view is itself on display, has no subviews besides its items, and its selected item was not hidden by the application, every view survives |
| `RoundTrip.NestedTabsLoseText` | AppKit/Sources/AppKit.php:2460-2469 | a tab view in an unselected item of a tab view loses the text of its field: the next request constructs the field with another text, for every non-empty text |
| `Dispatch.HitTestFinds` | AppKit/Sources/AppKit.php:739-751 | hit testing returns the target if it is anywhere in the forest, also in items that are not on display, and nothing otherwise |
| `Dispatch.QueueCounts` | AppKit/Sources/AppKit.php:733-738 | every view queues exactly its own events, wherever it is in the window, except below a pop-up button, which does not pass collecting on |
| `Dispatch.QueueTargets` | AppKit/Sources/AppKit.php:329-341 | only views of the window are targets of queued events |
| `Dispatch.QueuedEvents` | AppKit/Sources/AppKit.php:329-341 | every queued event is the posted one of its target, with the posted clickedRow and clickedColumn, or one that a tab view or pop-up button queues itself, without a place |
| `Dispatch.QueueAround` | AppKit/Sources/AppKit.php:733-738 | wherever a view is in the window: its items queue first, then a tab view its own event, then the subviews, and last the event posted for the view itself, with no other event of its tree before or after |
| `Dispatch.CallsCount` | AppKit/Sources/AppKit.php:3226-3241 | each queued event that reaches its target calls mouseDown once, in queue order, and no other event does |
| `Dispatch.PostedEventArrives` | AppKit/Sources/AppKit.php:586-600 | end to end: the view whose id was posted gets exactly one mouseDown for it, every other view none; only tab views and pop-up buttons queue events of their own besides; a view below a pop-up button is never asked and gets none at all |
| `Dispatch.NoSuchIdNoCall` | AppKit/Sources/AppKit.php:321-341 | a view whose id was not posted and that queues no event of its own gets no mouseDown |
| `Delivery.PressedTabIsSelected` | AppKit/Sources/AppKit.php:2375-2403 | pressing the button of a tab that is not withheld ends the delivery with that tab selected, whatever else was clicked |
| `Delivery.UnpressedTabStays` | AppKit/Sources/AppKit.php:2375-2403 | without a pressed tab button the tab view keeps its item, whatever else was clicked |
| `Delivery.WithheldTabStays` | AppKit/Sources/AppKit.php:2351-2356 | a withheld tab is not selected even if its button is posted although no page has it |
| `Delivery.PostedGrid` | AppKit/Sources/AppKit.php:478-512 | a posted button hits the group of buttons it is a cell of: next state, and the selection moves to it unless it has an action of its own; every other group is unchanged |
| `Delivery.PostedButtonIsOn` | AppKit/Sources/AppKit.php:2081-2117 | a posted button without an action of its own is the only one of its radio matrix that is on if and only if every other one but the selected one was off and the matrix finds the button again |
| `Delivery.PostedButtonChanges` | AppKit/Sources/AppKit.php:1126-1132 | every button of a window after one press: if the press moves a radio matrix, the button that the matrix reads at the pressed place goes on and the one it had selected goes off, whatever cells were removed before; else the pressed button takes its next state; every other button keeps its state |
| `Delivery.DenseReads` | AppKit/Sources/AppKit.php:2056-2074 | while no cell was removed, the button that the matrix reads at the pressed place is the pressed one |
| `Delivery.ThinnedMatrixFails` | AppKit/Sources/AppKit.php:2056-2117 | a matrix that lost its first cell: pressing the second button left turns both on |
| `Delivery.ActionIsActors` | AppKit/Sources/AppKit.php:478-512 | what a click sends, given by the climb over all superviews, is the action of the view itself or else of the first matrix with an action that is reached from superview to superview, once |
| `Delivery.WhoSends` | AppKit/Sources/AppKit.php:1126-1132 | of the kinds modelled exactly buttons, pop-up buttons, text fields and matrices send when they are clicked; tab views, collection views, scroll views and plain views send nothing |
| `Delivery.PostedButtonSends` | AppKit/Sources/AppKit.php:478-600 | end to end: a posted button sends its own action, or that of the first acting matrix above, exactly once, or nothing; all else that is sent comes from changed pop-up buttons |
| `Delivery.OneMoreEvent` | AppKit/Sources/AppKit.php:588-592 | the next event clicks its target after all before it, if it is reached, and sends the same actions whatever was clicked before |
| `Matrices.SelectGrid` | AppKit/Sources/AppKit.php:2081-2099 | in a group of buttons the old selected cell goes off and the new one on, and nothing else changes |
| `Matrices.ClickedCellGrid` | AppKit/Sources/AppKit.php:482-492 | a click on a button without an action of its own changes its state, climbs to its matrix and moves the selection there, also if the action goes on upwards |
| `Matrices.ClickIsRecorded` | AppKit/Sources/AppKit.php:2108-2117 | a click on cell i is recorded as row i / columns and column i % columns, and these become the selected row and column |
| `Matrices.ActingCellGrid` | AppKit/Sources/AppKit.php:478-512 | a click on a button with an action of its own changes only its state |
| `Matrices.OtherClickGrid` | AppKit/Sources/AppKit.php:478-512 | a click on any view but the matrix and its cells leaves the matrix and its buttons alone |
| `PopUp.ChangeIsNoticed` | AppKit/Sources/AppKit.php:1559-1575 | over two requests: one event if the item picked from the select on the page differs from the selection the page was drawn with, else none; the picked item ends up selected; with no select on the page, or an empty one, nothing is posted and the selection survives without event |
| `Controls.SelectOnPage` | AppKit/Sources/AppKit.php:1576-1627 | the page has exactly one select named by the id of a pop-up button that is on display and does not pull down, with one option for each item and its selection preselected, and none for any other pop-up button |
| `Controls.TabOnPage` | AppKit/Sources/AppKit.php:2414-2440 | the page has exactly one submit button id-i for each tab i of a reached tab view that is not withheld, and none for a withheld tab, an index beyond the tabs or a tab view that is not reached |
| `Controls.TabsBeforeItem` | AppKit/Sources/AppKit.php:2414-2457 | wherever a tab view is reached, its tab buttons stand right before what the selected item shows |
| `Controls.ControlAt` | AppKit/Sources/AppKit.php:752-769 | wherever a view is in the window, the page has the controls it offers exactly if displaying reaches it |
| `PopUp.PickedFromMenu` | AppKit/Sources/AppKit.php:1607-1625 | there is something to pick exactly if the pop-up button is offered with at least one item, and it is one of its items |
| `PopUp.UntouchedIsQuiet` | AppKit/Sources/AppKit.php:1559-1625 | a page posted without touching the pop-up button queues no event and keeps the selection if and only if it is not offered, has no items, or its selection is one of them; else the first item is selected with one event |
| `PopUp.AnyIndexIsNoticed` | AppKit/Sources/AppKit.php:1511-1575 | any posted index, also one that the menu does not have, is noticed and selected exactly if it is not the selection, where a selection beyond the menu counts as -1 |
| `Toggles.PostedToggles` | AppKit/Sources/AppKit.php:1064-1132 | a press takes a checkbox or single radio button from off to on and back, or through 0, 1, -1 where a mixed state is allowed |
| `Toggles.ThreePressesComeBack` | AppKit/Sources/AppKit.php:1064-1132 | with a mixed state three presses visit 1 and -1 and return to 0 |
| `Toggles.WithoutScriptGoesOff` | AppKit/Sources/AppKit.php:1133-1173 | if no view is named in the form, every button that is asked ends off |
| `Toggles.ShownUnheld` | AppKit/Sources/AppKit.php:2119-2157 | displaying changes no button that no matrix in radio mode holds |
| `Toggles.NextToggle` | AppKit/Sources/AppKit.php:1064-1132 | one request of a whole window: the pressed checkbox is one step on in its cycle in the window that is drawn, and keeps its state if anything else was pressed |
| `Toggles.PressesAddUp` | AppKit/Sources/AppKit.php:1064-1132 | over any run of requests of a whole window: on if and only if it began on, xor an odd number of presses; with a mixed state the presses add up modulo three |
| `Requests.RebuiltFaithfully` | AppKit/Sources/AppKit.php:118-150 | a view whose names were sent back as the page holds them is constructed with the properties that displaying left, converted, whatever else the form holds |
| `Requests.NextTab` | AppKit/Sources/AppKit.php:2375-2457 | a tab is pressed by a submit button that the page has for it; the tab pressed in one request is selected in the window that the request draws; without a press the tab view shows what it showed on the page before |
| `Requests.LastPressedTabIsSelected` | AppKit/Sources/AppKit.php:2375-2457 | over any run of requests of a whole window a tab view shows the tab that was pressed last |
| `Requests.NextPick` | AppKit/Sources/AppKit.php:1559-1575 | one request of a whole window: the picked item is selected, and the pop-up button gets one mouseDown if that is a change and none otherwise |
| `Requests.LastPickIsSelected` | AppKit/Sources/AppKit.php:1559-1575 | over any run of requests of a whole window the item picked last is selected, and the pop-up button heard of every change and of nothing else |
| `Requests.RebuiltGrid` | AppKit/Sources/AppKit.php:2025-2031 | the selection of a matrix and the states of its buttons, as displayed, reach the next request |
| `Requests.ShownGrid` | AppKit/Sources/AppKit.php:2119-2157 | displaying a window derives the states of a radio matrix exactly if the matrix is on display |
| `Requests.PressedIsShown` | AppKit/Sources/AppKit.php:2119-2157 | whatever its buttons showed before, once a radio matrix is displayed exactly the posted button is on |
| `Requests.NextRadio` | AppKit/Sources/AppKit.php:2081-2157 | one request of a whole window: exactly the pressed button of a radio matrix is on, or the one that was, also if a button with an action of its own was pressed; a matrix that is on display in the new window may have lost cells |
| `Requests.LastPressedIsOn` | AppKit/Sources/AppKit.php:2081-2157 | over any run of requests of a whole window exactly the button of a radio matrix that was pressed last is on, whether the matrix is displayed in every request or lost no cell |
| `Hierarchy.AddKeepsForest` | AppKit/Sources/AppKit.php:682-695 | adding a view that has a superview, is the view itself, or tops a tree without the new superview keeps the hierarchy a forest of the same views |
| `Hierarchy.DetachKeepsForest` | AppKit/Sources/AppKit.php:696-703 | removing a child keeps the hierarchy a forest of the same views |
| `Hierarchy.DetachUndoesAdd` | AppKit/Sources/AppKit.php:682-707 | removing the view that was just added gives back every other tree and the tree of the view itself |
| `Hierarchy.RunKeepsForest` | AppKit/Sources/AppKit.php:675-707 | over every run of legal additions and removals the hierarchy stays duplicate-free and acyclic and no view is lost |
| `Hierarchy.NoForestWithCycle` | AppKit/Sources/AppKit.php:682-695 | no forest has a tree whose top is also a child of one of its own views |
| `Links.AdditionKeepsForest` | AppKit/Sources/AppKit.php:682-695 | for every addition that the guard accepts: the links after it are those of some forest if and only if the view tops a tree and the new superview is not part of that tree |
| `Links.ItemViewIsAccepted` | AppKit/Sources/AppKit.php:682-695 | the view of a tab item has no superview and is accepted, and no forest has the links after that |
| `Links.AddLinks` | AppKit/Sources/AppKit.php:682-695 | after an addition every view has its old links, but for the new child at the end of one list and its superview |
| `Links.DetachLinks` | AppKit/Sources/AppKit.php:696-703 | after a removal every view has its old links, but for the child taken out of one list, the order of the others kept, and its superview |
| `Links.ReplacementTakes` | AppKit/Sources/AppKit.php:675-681 | after all subviews were replaced the list holds exactly the new views that are not the view itself and have no other superview, in their order and each once |
| `Links.ChildHasOneParent` | AppKit/Sources/AppKit.php:669-703 | a view in a list of subviews has that view as its superview and is in no other list |
| `Links.ParentHasChild` | AppKit/Sources/AppKit.php:669-703 | a view with a superview is in the list of that superview |
| `Surgery.PruneUndoesGraft` | AppKit/Sources/AppKit.php:682-707 | taking a grafted tree out again restores the forest |
| `Registry.NextIdIsFree` | AppKit/Sources/AppKit.php:288-293 | the id a constructor picks by counting is not in use, and counting goes on to work |
| `Registry.ReIdentifyMoves` | AppKit/Sources/AppKit.php:348-355 | giving an object an unused id that is no number moves it, keeps every other object in place and keeps counting safe |
| `Registry.SameIdDropsObject` | AppKit/Sources/AppKit.php:348-355 | giving an object its own id takes it out of the table; the next constructed id is then free if and only if the highest number was not that of another object |
| `Registry.CountingIsFresh` | AppKit/Sources/AppKit.php:288-293 | over every run of constructions and moves to unused names: no picked id is ever in use, no object is lost, and every object is stored under its own id |
| `Registry.NumbersCountUp` | AppKit/Sources/AppKit.php:288-293 | objects constructed one after the other are numbered one after the other, the first with one more than there are responders |
| `Registry.OwnIdsAreDistinct` | AppKit/Sources/AppKit.php:288-355 | objects stored under their own ids have distinct ids |
| `Registry.CellIdIsNotNumeric` | AppKit/Sources/AppKit.php:2751-2751 | the id of a table cell is no number, so cells never disturb counting |
| `Views.NSApplication.Run` | AppKit/Sources/AppKit.php:586-600 | one request: the window becomes what collecting, delivering with all actions, displaying and the finishing pass make of its forest; the page is the page of the displayed forest, which displaying would not change again; mouseDown was called on exactly the reached targets in queue order, and exactly their actions were sent |
| `Views.NSApplication.Deliver` | AppKit/Sources/AppKit.php:588-592 | delivering a queue clicks exactly the reached targets, in order, sends exactly their actions and changes nothing else |
| `Views.NSResponders.StoredIdsAreDistinct` | AppKit/Sources/AppKit.php:288-293 | the views of a window that are all in the table under their own ids have distinct ids |
| `Views.NSView.constructor` | AppKit/Sources/AppKit.php:288-293 | a new view is registered under the next number and stands alone; it is then in the table under its own id and every other entry is kept, as long as the table is counted |
| `Views.NSView.Persist` | AppKit/Sources/AppKit.php:118-126 | a new persistor takes the current value as default and reads the form; every property of the view is then what construction gives it |
| `Views.NSView.PersistAs` | AppKit/Sources/AppKit.php:128-133 | a renamed persistor reads under its automatic name first and under its own name last |
| `Views.NewScrollView` | AppKit/Sources/AppKit.php:3136-3144 | a scroll view has four persistors, two of them renamed, and each property is what construction gives it |
| `Views.NSView.SetElementId` | AppKit/Sources/AppKit.php:348-355 | the object moves in the table and every persistor reads again under the new id |
| `Views.NSView.IsHidden` | AppKit/Sources/AppKit.php:718-725 | true exactly if the view or one of its superviews is hidden |
| `Views.NSView.SetHidden` | AppKit/Sources/AppKit.php:726-732 | the flag is set |
| `Views.NSView.SetWindow` | AppKit/Sources/AppKit.php:658-665 | the window of every view below, and of no other, is the given one |
| `Views.NSView.AddSubview` | AppKit/Sources/AppKit.php:682-695 | the list grows by exactly this view or the view is refused; the objects represent the forest after adding, and windows keep agreeing with those of superviews; the view of a tab item is added too, and the links of every view are stated |
| `Views.NSView.AddEach` | AppKit/Sources/AppKit.php:679-680 | views are added one after the other, as a run of additions |
| `Views.NSView.RemoveSubview` | AppKit/Sources/AppKit.php:696-703 | the objects represent the forest after detaching, the list loses exactly this view and keeps its keys, the detached tree has no window |
| `Views.NSView.RemoveFromSuperview` | AppKit/Sources/AppKit.php:704-707 | the same, asked of the child itself |
| `Views.NSView.SetSubviews` | AppKit/Sources/AppKit.php:675-681 | all old subviews detached, then all new ones added: the objects represent the forest after that run |
| `Views.NSView.SetContent` | AppKit/Sources/AppKit.php:1845-1851 | the same run, by every item removing itself from its superview |
| `Views.NSView.HitTest` | AppKit/Sources/AppKit.php:2404-2413 | returns the target exactly if it is in the tree |
| `Views.NSView.HitTestView` | AppKit/Sources/AppKit.php:739-751 | returns the target exactly if it is in the tree of a view that is no tab view |
| `Views.NSView.Draw` | AppKit/Sources/AppKit.php:2978-3041 | one draw call, and the input that the kind of view draws |
| `Views.NSView.Display` | AppKit/Sources/AppKit.php:752-769 | the output grows by the displayed forest, and the objects represent the forest with the states that matrices on display derived and without the position of a scroll view at the top |
| `Views.NSView.DisplayScrollView` | AppKit/Sources/AppKit.php:3151-3183 | nothing when hidden; otherwise what every view shows, and a scroll view without a superview forgets its position |
| `Views.NSView.DisplayView` | AppKit/Sources/AppKit.php:752-769 | a hidden view shows nothing; another shows its subviews and then itself |
| `Views.NSView.DisplayTabView` | AppKit/Sources/AppKit.php:2414-2457 | the buttons of the tabs that are not withheld, then the selected item |
| `Views.NSView.DisplayMatrix` | AppKit/Sources/AppKit.php:2119-2157 | the table of all cells with their counters, every cell displayed once and in order, its state derived from the selection in radio mode; nothing while hidden |
| `Views.NSView.DisplayCollection` | AppKit/Sources/AppKit.php:1902-2003 | every item displayed once and in order: with columns in a table that reads back as the rows of the items, without in spans side by side; nothing while hidden |
| `Views.NSView.DisplayDone` | AppKit/Sources/AppKit.php:770-778 | the objects represent the forest after the finishing pass |
| `Views.NSView.DisplayDoneTabView` | AppKit/Sources/AppKit.php:2460-2469 | every item is marked hidden or shown and then finished, selected or not |
| `Views.NSView.DisplayDoneTextField` | AppKit/Sources/AppKit.php:3045-3050 | the string forgets to be persisted exactly if the field is a label or not hidden, and no password |
| `Views.NSView.WritePersist` | AppKit/Sources/AppKit.php:2470-2475 | items, subviews and the view itself write the hidden inputs of the forest, in this order |
| `Views.NSView.WriteOwn` | AppKit/Sources/AppKit.php:300-304 | every persistor writes, in order of registration |
| `Views.NSView.CollectEvents` | AppKit/Sources/AppKit.php:949-953 | the queue grows by the events of the tree and the objects represent the collected tree |
| `Views.NSView.CollectTabView` | AppKit/Sources/AppKit.php:2380-2403 | items first, then the first pressed tab button, then subviews and the inherited event |
| `Views.NSView.CollectPopUp` | AppKit/Sources/AppKit.php:1559-1575 | one event and the new selection if and only if the posted value differs from the selection |
| `Views.NSView.CollectView` | AppKit/Sources/AppKit.php:733-738 | subviews in order, then the inherited event |
| `Views.NSView.CollectResponder` | AppKit/Sources/AppKit.php:329-341 | one event with the posted row and column if and only if the posted id is this view's |
| `Views.NSView.SelectTabViewItemAtIndex` | AppKit/Sources/AppKit.php:2351-2369 | selects an item that exists and is not withheld, ignores every other index |
| `Views.NSView.MouseDown` | AppKit/Sources/AppKit.php:1126-1132 | what a click makes of the whole window: the view itself, the matrices that hear of it and their cells, and the actions it sends |
| `Views.NSView.SetNextState` | AppKit/Sources/AppKit.php:1064-1076 | off to on, on to off or, where allowed, to mixed, and mixed to off, in numbers |
| `Views.NSView.GetRowColumnOfCell` | AppKit/Sources/AppKit.php:2056-2064 | finds exactly the direct children, at their coordinates by position |
| `Views.NSView.CellAtRowColumn` | AppKit/Sources/AppKit.php:2066-2074 | the subview whose key the coordinates stand for, whatever was removed before; at its own coordinates a cell is found exactly if its key is its position |
| `Views.NSView.SelectedCell` | AppKit/Sources/AppKit.php:2076-2079 | the subview whose key the recorded selection stands for, or null |
| `Views.NSView.SelectRowColumn` | AppKit/Sources/AppKit.php:2081-2099 | the objects represent the forest after the selection moved: in radio mode the old selected cell off and the new one on |
| `Views.NSView.SendAction` | AppKit/Sources/AppKit.php:478-512 | sends at most one action; without one the climb tells exactly the nearest matrix, and from there each matrix above of its own child |
| `Views.NSView.ClickedCell` | AppKit/Sources/AppKit.php:2108-2117 | a direct child becomes the recorded click and selection; for any other view nothing changes |
| `Views.NSView.MouseDownMatrix` | AppKit/Sources/AppKit.php:2101-2106 | selects the recorded click and sends the action of the matrix |
| `Views.NSView.SetSelected` | AppKit/Sources/AppKit.php:1078-1083 | a button is on or off, whatever it was |
| `Views.NSWindow.constructor` | AppKit/Sources/AppKit.php:3195-3206 | a new window has a scroll view with one empty view in it, which is its content view, and a key was used |
| `Views.NSWindow.SetContentView` | AppKit/Sources/AppKit.php:3214-3221 | the old content view detached and the new one added: a forest again, all of the scroll view in this window, and no content view from then on |
| `Views.NSWindow.FindTarget` | AppKit/Sources/AppKit.php:3226-3241 | null exactly if there is a content view and the target is not below it |
| `Views.NSWindow.SendEvent` | AppKit/Sources/AppKit.php:3226-3241 | mouseDown is called on the target exactly if it is reached |
| `Grids.KeyOfIndex` | AppKit/Sources/AppKit.php:2056-2074 | the key read at the coordinates of an index is that index, for every index below the cell count; the index is row times columns plus column, and the column is in range |
| `Grids.IndexOfKey` | AppKit/Sources/AppKit.php:2036-2074 | coordinates read an existing cell exactly if they are in range, although the row count is a real division, and are then the coordinates of that cell |
| `Grids.CellAtItsCoordinates` | AppKit/Sources/AppKit.php:2056-2074 | a cell is found again at its own coordinates if and only if its key is its position; always while nothing was removed |
| `Grids.ClickedStates` | AppKit/Sources/AppKit.php:2081-2117 | the state of every cell after a click, for arrays from which cells were removed as well |
| `Grids.ClickSelectsOnly` | AppKit/Sources/AppKit.php:2081-2117 | clicking any cell of a radio matrix leaves exactly it on if and only if all cells but it and the recorded selection were off and its key is its place, or no cell has that key and the click itself turned the cell on |
| `Grids.ClickMovesOn` | AppKit/Sources/AppKit.php:2081-2152 | a click on a radio matrix in which exactly the selected cell is on, and which lost no cell or is displayed afterwards, leaves exactly the clicked cell on |
| `Grids.DisplaySelectsOnly` | AppKit/Sources/AppKit.php:2129-2152 | from any states whatever, displaying a radio matrix leaves exactly the selected cell on |
| `Grids.DisplayedAt` | AppKit/Sources/AppKit.php:2129-2152 | the counters of the display loop stand at the coordinates of each cell |
| `Grids.DisplayKeepsClick` | AppKit/Sources/AppKit.php:2081-2152 | the display changes nothing that a click left if and only if the click left exactly its cell on |
| `Markup.TableReads` | AppKit/Sources/AppKit.php:2119-2157 | the markup reads back as closed rows with every cell in its place, unless counters start at 0, there are several columns and the last row has one cell: then a row is left open |
| `Markup.RowsOfItems` | AppKit/Sources/AppKit.php:1920-2002 | ceil(n / columns) rows, and every row but the last has exactly that many cells |
| `Markup.ItemInRow` | AppKit/Sources/AppKit.php:1920-2002 | item k stands in row k / columns at position k % columns |
| `Markup.SpansRead` | AppKit/Sources/AppKit.php:1922-1946 | without columns every item stands in a closed span with its number, in order, spaced or not |
| `TableCells.EditsAreCommitted` | AppKit/Sources/AppKit.php:2695-2732 | each editable entry that displaying fills holds the value posted under its own name if that differs, and its old value otherwise; every other entry of a column is unchanged |
| `TableCells.PostedEntryIsCommitted` | AppKit/Sources/AppKit.php:2713-2751 | by the names of a form: the value under table-row-column-string reaches exactly that row and column, if the column is visible and editable, the row has data and is shown, and the value differs |
| `TableCells.OtherDataIsKept` | AppKit/Sources/AppKit.php:2695-2732 | data of columns that the table does not show is unchanged |
| `TableCells.EntryNameInjective` | AppKit/Sources/AppKit.php:2719-2719 | no two entries of a table have the same name |
| `TableCells.OneInputPerEntry` | AppKit/Sources/AppKit.php:2754-2852 | the page has exactly one input under the name of each filled entry with an editable cell, and it holds the value of that entry |
| `TableCells.UnchangedPageKeepsData` | AppKit/Sources/AppKit.php:2695-2852 | a page that is posted back as it is changes no entry |
| `TableCells.TypedEntriesAreCommitted` | AppKit/Sources/AppKit.php:2695-2852 | from page to data: whatever is typed into the entries, independently of one another, is committed to exactly the entries whose text differs |
| `TableCells.LastTypedIsHeld` | AppKit/Sources/AppKit.php:2695-2852 | over any run of pages that are filled in and posted, an entry holds what was typed into it last, up to texts that do not differ, and never anything but its first value or a typed text |
| `TableCells.CellsAreNotCalled` | AppKit/Sources/AppKit.php:2695-2732 | while the window has a content view, hit testing finds no shared cell, and the events queued for cells call nobody |
| `TableCells.CellEvents` | AppKit/Sources/AppKit.php:2716-2726 | collecting queues nothing but the event posted for the cell of an editable entry, with the posted row and column |
| `TableCells.TableDraws` | AppKit/Sources/AppKit.php:2754-2852 | the header cell of every visible column is drawn once, and its data cell once for every row that has data and is shown |
| `Tables.NSTableColumn.SetEditable` | AppKit/Sources/AppKit.php:2510-2515 | the flag reaches the data cell |
| `Tables.NSTableView.DataCell` | AppKit/Sources/AppKit.php:2734-2753 | the shared cell is renamed for the row and the first place of its column; table, cells and strings stay usable |
| `Tables.NSTableView.AskEntry` | AppKit/Sources/AppKit.php:2716-2723 | the shared cell, filled with the old value, reads back the value posted under the name of the entry or the old one; when the cell already had that id it drops out of the table of responders |
| `Tables.NSTableView.CollectEntry` | AppKit/Sources/AppKit.php:2713-2727 | one visit: the data changes at this entry only, and only if the value differs; the event meant for the cell is queued |
| `Tables.NSTableView.CollectRow` | AppKit/Sources/AppKit.php:2707-2728 | all entries of a row in column order, hidden columns skipped |
| `Tables.NSTableView.CollectEvents` | AppKit/Sources/AppKit.php:2695-2732 | a hidden table collects nothing; another commits exactly the edits of all its rows |
| `Tables.NSTableView.DisplayCell` | AppKit/Sources/AppKit.php:2778-2842 | a header cell, a data cell filled with its entry, or nothing in a row that only pads the table |
| `Tables.NSTableView.Display` | AppKit/Sources/AppKit.php:2754-2852 | the output grows by all rows from the header row on |
| `Tables.AskCell` | AppKit/Sources/AppKit.php:2716-2726 | fill, rename, read, collect and empty one cell object |
| `PdfFlow.FlowConserves` | PDFKit/PDFKit.php:291-319 | printed prefixes and returned rest recompose exactly the logical lines of the input, for every box and every wrapping |
| `PdfFlow.FlowFits` | PDFKit/PDFKit.php:294-311 | the nested loop ends even if no character is ever taken; it prints at most as many lines as there is room for, and exactly that many if anything is left over |
| `PdfFlow.FlowGoesDown` | PDFKit/PDFKit.php:308-309 | line k is printed k steps below the first |
| `PdfFlow.RoomIsEnough` | PDFKit/PDFKit.php:299-306 | each of the lines there is room for lies within the box |
| `PdfFlow.HeightLeft` | PDFKit/PDFKit.php:312-313 | the new top is the old one less the steps printed, and printed lines overshoot the bottom by at most the step less the font size |
| `PdfFlow.FlowKeepsCharacters` | PDFKit/PDFKit.php:291-319 | printed characters and those left over are the characters of the input, in order |
| `PdfFlow.PaginatePrintsAll` | PDFKit/PDFKit.php:281-320 | drawing the rest into fresh boxes ends, and prints every character exactly once and in order |
| `PdfFlow.PDFPage.AddTextWrap` | PDFKit/PDFKit.php:308-308 | the only thing assumed of the library: it prints a beginning of the line and returns the rest |
| `PdfFlow.PDFPage.DrawTextInRect` | PDFKit/PDFKit.php:281-320 | the nested loop computes the flow; the first line stands a font size below the top and line k k times the line spacing times the font size below it; the height shrinks by that for every line; the lines are none if the height is less than a font size, at most as many as fit, and exactly as many if text is left |
| `Text.ImplodeExplode` | PDFKit/PDFKit.php:291-317 | joining the lines of a text gives the text |
| `Text.ExplodeImplode` | PDFKit/PDFKit.php:291-317 | splitting joined lines gives the lines, as long as they hold no newline |
| `Text.ExplodeAppend` | Message/Message.php:112-152 | a newline between two texts ends a line of the whole and nothing else |
| `Base64.DecodeEncode` | Message/Message.php:139-139 | decoding gives back the bytes (section 6.8 of RFC 2045) |
| `Base64.EncodingIsSafe` | Message/Message.php:139-139 | no character of an encoding can begin a boundary line or end a line |
| `Base64.TestVectors` | Message/Message.php:139-139 | the test vectors of section 10 of RFC 4648 and the last two characters of the alphabet |
| `Mail.ChunksAreSafe` | Message/Message.php:139-139 | splitting into 76-column lines adds nothing but newlines, and no hyphen |
| `Mail.CleanEntity` | Message/Message.php:127-149 | a part disturbs the receiver exactly if it is a string with a line that begins with the delimiter; attachments never do |
| `Mail.MultipartRoundTrip` | Message/Message.php:112-152 | a receiver after section 5.1.1 of RFC 2046 gets exactly the parts in order, the last with one newline more, if and only if no string part has a line that begins with the delimiter |
| `QuotedPrintable.DecodesToItself` | Message/Message.php:143-148 | a text that was never encoded decodes to itself (section 6.7 of RFC 2045) if and only if it has no escape, no soft line break and no blank at the end of a line |
| `Mail.EveryPartArrives` | Message/Message.php:112-152 | a receiver reads in the header of every part the encoding, type and disposition that the source announces and decodes by that header alone: the bytes of every attachment arrive, and a string arrives if and only if nothing in it looks encoded |
| `Mail.EscapeIsLost` | Message/Message.php:143-148 | the string a=3D arrives as a= |
| `Mail.LetterIsRead` | Message/Message.php:87-121 | the receiver reads exactly From with the sender if there is one, the kept headers in order, Mime-Version 1.0 and the multipart type with the boundary |
| `Mail.CrlfReads` | Message/Message.php:91-98 | every announced header reads back, in order, followed by what comes after |
| `Mail.ComposeMultipart` | Message/Message.php:123-151 | the loop over the parts appends exactly the composed message |
| `Mail.ComposePart` | Message/Message.php:129-148 | the header lines, the empty line and the content of one part; what a receiver reads in them is stated by Mail.EntityIsLabelled |
| `Mail.EntityIsLabelled` | Message/Message.php:134-146 | read from the composed part itself: base64 with the PDF type and a disposition for an attachment, quoted-printable with the text type and none for a string |
| `Mail.ChunkLines` | Message/Message.php:139-139 | the base64 text stands in lines of exactly 76 characters and a last one of at most 76 |
| `Mail.RecipientsRead` | Message/Message.php:93-94 | recipients that were merged read back one by one between the commas |
| `Mail.KeptAre` | Message/Message.php:91-98 | exactly the headers other than To and Subject are announced, in their order |
| `Mail.CrlfLines` | Message/Message.php:98-98 | every announced header is a line name, colon, blank, value that ends with a carriage return |
| `Mail.ComposeHeaders` | Message/Message.php:87-98 | all headers but recipients and subject in order, arrays merged with commas, also in the header array itself |
| `Mail.Deliver` | Message/Message.php:82-160 | what is handed to mail: the merged value of the key To and that of the key Subject, body and headers, for a string, several parts, or at most one part |

## Left out

- Text: HTML, CSS and JavaScript text, escaping, colours, fonts, images, tooltips, menus, window heads and titles; a page is its draw calls and named controls, a table its tags.
- Requests: cookies, headers, resource serving, the URL mapping, bundles and nib files; a request is its posted form.
- needsDisplay: the flag is only ever set and nothing reads it.
- Subclasses: scroll views, text fields, buttons, pop-up buttons, tab views, matrices and collection views are one class `NSView` told apart by `kind`; subclasses that an application adds are not part of this model.
- NSTextView: forgets its hidden input while it draws instead of afterwards; sliders, boxes, forms and menus have inputs of their own, also left out.
- NSWindow: its own entry in the table, its three persistors under the names NSEvent, clickedRow and clickedColumn, which are emptied before every page is written, and the menu drawn before the content.
- Views.NSApplication.Run: the root of the window is any tree of views of the kinds above, so no table view is in it; `updateWindows` of the application's delegate, which runs before the window is displayed, and the window's own persistors are left out.
- Views.NSView.DisplayScrollView: the script that scrolls to the restored position, and the one that fills in the position when a page is sent.
- Views.NSView.SelectTabViewItemAtIndex: does not ask or tell a delegate of the tab view, which may veto a selection.
- Views.NSView.AddSubview: asks that the new superview is not in the tree of an accepted view. Where it is below that view through subviews, the source makes a cycle of superviews and handing the window down does not end; where it is below one of its tab items, the links are those of no forest, which `Links.AdditionKeepsForest` covers and the objects do not.
- Views.NSView.AddEach: asks that each view to be added may be added without leaving a forest, as AddSubview does, and in addition that it is no view of a tab item, which the source accepts; what that does to the links is stated of one addition (`Links.AdditionKeepsForest`).
- Views.NSView.SetSubviews: the same of the new subviews.
- Views.NSView.SetContent: the same of the new items.
- Views.NSWindow.SetContentView: the same of the new content view.
- Views.NSView.MouseDown: sliders, menus and table views have a mouseDown of their own, which is not part of this model.
- Views.NSView.SendAction: records the action that is sent with its sender, but neither whether a target is set nor what it does; only matrices hear of an action without a name.
- Views.NSView.SelectRowColumn: a selected cell that does not understand setSelected ends the request in the source and is left alone here; a matrix has at least one column; a restored index counts as its number.
- Views.NSView.GetRowColumnOfCell: `array_search` compares objects by identity here.
- Views.NSView.DisplayMatrix: the tags of the table are apart from the controls that the cells draw; alignment and widths are left out, as for collection views.
- Views.NSView.CollectEvents: a checkbox as a cell of a table toggles while collecting, which is not modelled; without JavaScript a posted button only goes off first, as every button does here.
- Views.NSView.Draw: the controls of buttons are submit controls, which no persistor reads, and are left out; a pop-up button that pulls down draws no choice.
- Views.NSView.CollectResponder: compares ids as the strings they are written as; a posted "07" would match the number 7 in the source.
- Views.NSWindow.SendEvent: expects the one window of the application; an event for a view of another window is left out.
- Php.NumSurvivesText: numbers are read from decimal digits with a sign; prefixes, exponents and blanks are not modelled.
- Tables.NSTableView.CollectEvents: the data source is a store that returns what it was given and one is set; a delegate that supplies cells, and subviews of the table itself, are left out.
- Tables.NSTableView.Display: the selection, its delegate and the markup around the cells are left out.
- PdfFlow.PDFPage.DrawTextInRect: asks for a positive step. With another one there is room for ever if there is any, and the loop of the source ends exactly if the library goes on taking characters, of which nothing is assumed; `iconv`, justification, angle and horizontal layout are left out.
- PdfFlow.PDFPage.AddTextWrap: everything inside the drawing library but the split of the line.
- Mail.Deliver: transports other than SMTP, which return false at once, the call of `mail` and its result; the boundary is a parameter. A string in MIME format and an attributed string, which the source marks as still to do, are left out.
- Mail.EveryPartArrives: the receiver compares field names and encodings letter by letter, as they are sent, while RFC 2045 lets it ignore case.
- CoreData, the Objective-C headers and the typesetters: interfaces without bodies.
