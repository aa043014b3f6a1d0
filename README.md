# meowmeow in Dafny

meowmeow is a minimal X11 window manager. It keeps every window it
manages in a circular singly linked buffer. The head of the buffer is the
window on top, and it has the input focus. Key bindings cycle through the
windows, start programs or quit; closeCurWindow exists, but no key is bound
to it. Map requests push a new
window as the head, with no check that it is already managed. Destroy
notifications unlink a window when `chkWindowExists` reports it, and that
check never compares the last entry of a chain of two or more.

This project models that core and proves properties of it:

- `windowstack.dfy` (module `WindowStack`) reads the buffer as a sequence,
  starting at the head and following `next`. It defines, as pure
  functions, what unlinking, cycling and draining do to that sequence, and
  it proves their properties: the cyclic order is kept, a full turn brings
  the buffer back, and quit closes the windows in a fixed order.
- `windowbuff.dfy` (module `WindowBuffer`) holds `struct WindowEle` and
  `struct WindowBuff` as classes. Their pointer updates are those of
  `addWindow`, `remWindow` and `chkWindowExists`. A `Valid()` invariant
  ties the nodes to that sequence: the nodes form one cycle and no entry
  appears twice. Handles may repeat, because `addWindow` does not check for
  them.
- `keybindings.dfy` (module `KeyBindings`) holds the binding table of
  `config.h` and the scan of `keyPressHandler`. A binding fires on its
  keysym with exactly its modifier mask, and the first binding that
  matches wins.
- `dispatch.dfy` (module `Dispatch`) is the window manager as a state
  machine. The state is the stack, the `running` flag, the display size
  and a log of the requests sent to the X server. It defines one step per
  handler, the `evHandler` table and the event loop, for the handlers as
  written and for a corrected variant of them (see Findings). Every run of
  either variant leaves the last window given focus at the head. The
  corrected loop keeps handles distinct over any events. The loop as
  written keeps them distinct only while no map request names a managed
  window.
- `meowmeow.dfy` (module `Meowmeow`) holds the globals of `meowmeow.c` as
  the class `WindowManager`. Each handler is a method on the linked
  buffer, and each is proved to perform exactly its step in `Dispatch`.
  `Loop` runs either variant.

X requests are appended to a log, not sent. Events come from a sequence
passed to `Loop`. A key event carries its keysym directly.

## Model

| member | source | states |
|---|---|---|
| WindowStack.Removed | windowbuff.c:25-41 | remWindow takes out the entry at `Target`. Removing the head of a chain of two or more makes the head's predecessor (the last entry) the new head. Removing any other entry keeps the head. |
| WindowStack.Target | windowbuff.c:30-33 | The position of the entry remWindow unlinks lies in the chain and holds w. |
| WindowStack.TargetIsFirstAfterHead | windowbuff.c:30-33 | No entry strictly between the head and `Target` holds w, because the search compares the successors of the head first. `Target` is the head exactly when no later entry holds w. |
| WindowStack.DistinctTarget | windowbuff.c:32-36 | With distinct handles, remWindow unlinks the head exactly when the head holds w. |
| WindowStack.RemovedAt | windowbuff.c:32-38 | The entry at each position after unlinking comes from the old position `Src`: when the head is cut, the predecessor moves to the front; otherwise the entries behind the cut move up by one. |
| WindowStack.RemovedMultiset | windowbuff.c:29-41 | Unlinking removes exactly one occurrence of the window and keeps every other one. |
| WindowStack.RemovedDistinct | windowbuff.c:29-41 | Unlinking keeps handles distinct, and the removed window is gone afterwards. |
| WindowStack.RemovedKeepsCyclicOrder | windowbuff.c:32-38 | Read from the new head, the chain is the old chain with the `Target` entry cut out, rotated by some k. The predecessor comes first when the head was cut. |
| WindowStack.RemovedHead | windowbuff.c:25-38 | With distinct handles: removing the only window empties the buffer. Removing the head hands the head to its predecessor. Removing another window keeps the head. The survivors are exactly the other windows. |
| WindowStack.Cycle | meowmeow.c:144 | `head = head->next` read as a sequence: the chain read from its second window, with the old head last. An empty chain stays empty. |
| WindowStack.CycleDistinct | meowmeow.c:144 | Moving the head to `head->next` keeps the handles distinct. |
| WindowStack.CycleNRotates | meowmeow.c:137-146 | After k <= n presses of the cycle key on n windows, the chain is the old chain read from its k-th window. |
| WindowStack.CycleFullTurn | meowmeow.c:137-146 | n presses on n windows restore the original chain. |
| WindowStack.DrainOrder | meowmeow.c:73-78 | The order in which quit's loop sends delete requests: the head, then the drain order of what `Removed` leaves after unlinking the head's window. |
| WindowStack.DrainOrderMultiset | meowmeow.c:73-78 | The drain loop of quit visits each window exactly as often as it is in the chain. |
| WindowStack.DrainIsHeadThenPredecessors | meowmeow.c:73-78 | quit visits the head first. It then visits every other window going backwards along the chain, because each unlinking of the head hands the head to its predecessor. |
| WindowStack.ExistsAsWritten | windowbuff.c:44-59 | chkWindowExists as written reports only windows that are in the buffer, and it always reports the head. |
| WindowStack.ExistsAsWrittenMissesLast | windowbuff.c:49-58 | With distinct handles, the scan as written reports w exactly when w is in the chain and is not the last entry of a chain of two or more. |
| WindowStack.LastWindowNotReported | windowbuff.c:53-58 | Add A, then add B. A is in the chain B -> A, but it is not reported. |
| WindowBuffer.WindowEle.constructor | windowbuff.c:5-6 | A new entry carries the given window. |
| WindowBuffer.WindowBuff.Valid | windowbuff.h:9-16 | `head` is null exactly when the buffer is empty. Otherwise `nodes` lists the entries from the head along `next`, every entry's `next` is the following one, the last one's is the head, each entry occurs once, and `windows` holds their handles. |
| WindowBuffer.WindowBuff.NextOf | windowbuff.c:12 | Following `next` from the k-th entry reaches the (k+1)-th entry. Only the last entry leads back to the head, which ends addWindow's tail search. |
| WindowBuffer.WindowBuff.constructor | meowmeow.c:235 | The buffer allocated by setup is valid and empty, with a null head. |
| WindowBuffer.WindowBuff.AddWindow | windowbuff.c:3-18 | The new window becomes the head, the old chain follows it, and the cycle stays closed. A first window points to itself. A window already present gets a second entry. |
| WindowBuffer.WindowBuff.ChkWindowExists | windowbuff.c:44-59 | The loop as written computes exactly `ExistsAsWritten` of the chain. |
| WindowBuffer.WindowBuff.ChkWindowExistsFixed | windowbuff.c:44-59 | The corrected scan reports w exactly when w is in the buffer. |
| WindowBuffer.WindowBuff.FindPredecessor | windowbuff.c:31-32 | The search from the head stops at the predecessor of the `Target` entry. The last entry is that predecessor when no entry after the head holds the window. |
| WindowBuffer.WindowBuff.Unlink | windowbuff.c:25-41 | Unlinking a present window leaves `Removed` of the chain. A sole entry leaves a null head. When the `Target` entry is the head, the head passes to the last entry. Otherwise the head stays. |
| WindowBuffer.WindowBuff.UnlinkFromCycle | windowbuff.c:29-41 | Retargeting the predecessor's `next` past the `Target` entry keeps one valid cycle over the remaining entries, holding `Removed` of the chain. |
| WindowBuffer.WindowBuff.LinkPast | windowbuff.c:34-38 | `we->next = del->next` links the predecessor past the unlinked entry, and the head moves to the predecessor exactly when the unlinked entry was the head. Every other link stays. |
| WindowBuffer.WindowBuff.RemWindow | windowbuff.c:20-42 | remWindow as written unlinks w when the scan as written reports it. Otherwise it changes nothing. |
| WindowBuffer.WindowBuff.RemWindowFixed | windowbuff.c:20-42 | With the corrected check, remWindow unlinks w exactly when w is present. Otherwise it changes nothing. |
| WindowBuffer.RelinkedIsCycle | windowbuff.c:33-34 | After `we->next = del->next`, the remaining entries form a cycle in their new order. |
| WindowBuffer.CycledLinks | meowmeow.c:144 | Reading the cycle from `head->next` keeps every link pointing at the following entry. |
| WindowBuffer.LastWindowSurvivesRemoval | windowbuff.c:20-23 | Add A, then add B. chkWindowExists reports false for A, and remWindow(A) leaves A in the buffer. |
| WindowBuffer.LastWindowRemovedWhenFixed | windowbuff.c:20-23 | On the same buffer, the corrected check reports A and the corrected remove takes A out. |
| KeyBindings.Bindings | config.h:6-11 | The table in order: Alt+q quits, Alt+Tab cycles, Alt+p spawns `dmenu_run`, Alt+Return spawns `st`. |
| KeyBindings.Matches | meowmeow.c:155 | A binding fires when its keysym equals the event's and its modifier mask equals the event's state exactly. |
| KeyBindings.FirstMatch | meowmeow.c:154-159 | The chosen binding matches both the keysym and the exact modifier mask, and no earlier binding matches. When there is no choice, no binding matches. |
| KeyBindings.FindBinding | meowmeow.c:154-159 | The scan loop stops at exactly the first matching binding. |
| KeyBindings.FirstMatchIsUnique | meowmeow.c:154-159 | Position i is the first match exactly when it matches and nothing before it does. |
| KeyBindings.AltQSelectsQuit | config.h:7 | Alt+q selects the first entry, which is quit. |
| KeyBindings.AltShiftQSelectsNothing | meowmeow.c:155 | Alt+Shift+q selects nothing, because masks are compared with `==`. |
| Dispatch.EvHandler | meowmeow.c:49-53 | Exactly KeyPress, MapRequest and DestroyNotify have handlers, each its own one. |
| Dispatch.Initial | meowmeow.c:233-235 | The state after setup: no window managed, `running` set, an empty log and the display size. |
| Dispatch.Refocus | meowmeow.c:127-134 | Raise the head, then give it the input focus; nothing when the stack is empty. |
| Dispatch.TabNextStep | meowmeow.c:137-146 | On an empty stack nothing changes. Otherwise the stack becomes `Cycle` of it and the new head is refocused. |
| Dispatch.CloseCurStep | meowmeow.c:113-124 | On an empty stack nothing changes. Otherwise a delete request goes to the head's window, the stack becomes `Removed` of it for that window, and the new head is refocused. |
| Dispatch.QuitStep | meowmeow.c:70-81 | Clears `running`, empties the stack and logs `Deletes(DrainOrder(stack))`. |
| Dispatch.RunAction | meowmeow.c:156 | Runs the step of the function a binding names: quit, tabNextWindow, closeCurWindow, or a spawn of its argv. |
| Dispatch.KeyPressStep | meowmeow.c:149-160 | Runs the action of the first binding `FirstMatch` selects, or nothing when none matches. |
| Dispatch.MapRequestStep | meowmeow.c:163-171 | Logs the map and the resize to the whole display, pushes the window as the head (a second entry when it is already managed) and refocuses. |
| Dispatch.MapRequestFixedStep | meowmeow.c:163-171 | Like `MapRequestStep`, but a window already managed is not pushed again. |
| Dispatch.DestroyNotifyStep | meowmeow.c:174-183 | When `ExistsAsWritten` reports the window, the stack becomes `Removed` of it and the new head is refocused. Otherwise nothing changes. |
| Dispatch.DestroyNotifyFixedStep | meowmeow.c:174-183 | Like `DestroyNotifyStep`, but with plain membership in place of the scan as written. |
| Dispatch.Step | meowmeow.c:193-195 | Looks the event type up in `EvHandler` and runs that handler's step of the chosen variant; an event type without a handler changes nothing. |
| Dispatch.Run | meowmeow.c:186-197 | Runs `Step` on the events in order while `running` holds, and stops when it is cleared or the events run out. |
| Dispatch.InitialInv | meowmeow.c:233-235 | The state after setup has distinct handles and the focus on the head. |
| Dispatch.LastFocusOfRefocus | meowmeow.c:127-134 | After refocusCurWindow on a non-empty stack, the head holds the focus. |
| Dispatch.StepKeepsInv | meowmeow.c:193-195 | Every handler of either variant leaves the focus on the head. Handles stay distinct under the corrected handlers, and under the handlers as written unless the event maps a managed window. |
| Dispatch.KeyPressKeepsInv | meowmeow.c:149-160 | For every key and modifier state, the key handler leaves the focus on the head and keeps handles distinct. |
| Dispatch.ActionKeepsInv | meowmeow.c:70-146 | quit, tabNextWindow, closeCurWindow and spawn each leave the focus on the head and keep handles distinct. |
| Dispatch.MapRequestKeepsInv | meowmeow.c:163-171 | The map handler as written focuses the new head. On distinct handles, the result has distinct handles exactly when the window was not managed yet. |
| Dispatch.MapRequestFixedKeepsInv | meowmeow.c:163-171 | The corrected map handler leaves the focus on the head and keeps handles distinct for every window. |
| Dispatch.MapRequestFixedAgrees | meowmeow.c:163-171 | For a window not yet managed, the corrected map handler does exactly what the handler as written does. |
| Dispatch.PushDistinct | windowbuff.c:16-17 | Pushing a handle that is not in the buffer keeps handles distinct. |
| Dispatch.RemovedKeepsInv | meowmeow.c:181-182 | Unlinking a managed window and refocusing leaves the focus on the head and keeps handles distinct. |
| Dispatch.RunKeepsInv | meowmeow.c:186-197 | Every run of either variant leaves the focus on the head. The corrected loop keeps handles distinct over any events. The loop as written keeps them distinct over admissible events. |
| Dispatch.RunKeepsWholeInv | meowmeow.c:186-197 | From a state with distinct handles and the focus on the head, the corrected loop keeps both over any events. The loop as written keeps both over admissible events. |
| Dispatch.RunConcat | meowmeow.c:186-197 | For either variant, handling two batches of events in turn is the same as handling their concatenation. |
| Dispatch.AltTabCycles | config.h:8 | Alt+Tab runs tabNextWindow. |
| Dispatch.AltQQuits | config.h:7 | Alt+q runs quit. |
| Dispatch.UnboundKeyIgnored | meowmeow.c:154-159 | A keysym that no binding names changes nothing, under any modifier state. |
| Dispatch.MapTwoThenTab | meowmeow.c:137-171 | In either variant: map A, map B, press Alt+Tab. A is the head with the focus, B follows, and the loop still runs. |
| Dispatch.UnhandledEventIgnored | meowmeow.c:193-195 | An event type without a handler changes nothing. |
| Dispatch.StoppedRunsNothing | meowmeow.c:187 | Once `running` is false, the loop handles no further event. |
| Dispatch.DrainLog | meowmeow.c:73-78 | One turn of quit's loop sends the head's delete request, followed by those of the drained remainder. |
| Dispatch.DeletesAt | meowmeow.c:73-78 | The i-th delete request quit sends targets the i-th window of the drain order. |
| Dispatch.QuitDrainsStack | meowmeow.c:70-81 | quit stops the loop and empties the stack. On distinct handles it sends one delete request per window: the head first, then the predecessors in reverse chain order. |
| Dispatch.QuitDeletesEveryWindow | meowmeow.c:73-78 | quit sends a delete request to a window exactly when that window is managed. |
| Dispatch.CloseCurFocusesPredecessor | meowmeow.c:113-124 | On two or more windows, closeCurWindow asks the head to close and unlinks it. It then raises and focuses the old head's predecessor. |
| Dispatch.TabNextNStack | meowmeow.c:137-146 | k presses of the cycle key cycle the stack k times. |
| Dispatch.TabFullTurn | meowmeow.c:137-146 | As many presses as there are windows restore the stack. |
| Dispatch.MapRequestFocusesNewWindow | meowmeow.c:163-171 | A mapped window becomes the head and holds the focus. |
| Dispatch.DestroyedLastWindowStaysManaged | meowmeow.c:174-183 | With the check as written, map A, map B, then destroy A: A stays managed. The corrected handler drops it. |
| Dispatch.DestroyAsWrittenAgrees | meowmeow.c:177-182 | Wherever the scan as written finds the window, the handler as written and the corrected one agree, whether or not handles repeat. |
| Dispatch.DestroyAsWrittenAgreesOffLast | meowmeow.c:177-182 | With distinct handles, both handlers agree on every managed window except the last entry of a chain of two or more. |
| Dispatch.DestroyUntrackedIgnored | meowmeow.c:177-179 | A destroy notification for an unmanaged window changes nothing, under either handler. |
| Dispatch.DuplicateMapKeepsDestroyedWindow | meowmeow.c:163-183 | With the handlers as written: map A, map A again, destroy A. A second entry for A is left, so the destroyed A stays managed. The corrected handlers leave nothing managed. |
| Meowmeow.WindowManager.constructor | meowmeow.c:210-236 | setup reads the display size, sets `running` and allocates an empty buffer: the `Initial` state. |
| Meowmeow.WindowManager.RefocusCurWindow | meowmeow.c:127-134 | Raises and focuses the head, if there is one. Nothing else changes. |
| Meowmeow.WindowManager.TabNextWindow | meowmeow.c:137-146 | `head = head->next` and a refocus perform exactly `TabNextStep`, and the buffer stays valid. |
| Meowmeow.WindowManager.CloseCurWindow | meowmeow.c:113-124 | Performs exactly `CloseCurStep`, using the check and the remove as written. |
| Meowmeow.WindowManager.Quit | meowmeow.c:70-81 | The drain loop performs exactly `QuitStep`. |
| Meowmeow.WindowManager.CloseHead | meowmeow.c:74-77 | One turn of the drain loop sends the head's delete request and unlinks the head. |
| Meowmeow.WindowManager.Spawn | meowmeow.c:84-97 | Records the process started with the binding's argv. Nothing else changes. |
| Meowmeow.WindowManager.RunBinding | meowmeow.c:156 | Calls the function the binding names: exactly `RunAction`. |
| Meowmeow.WindowManager.KeyPressHandler | meowmeow.c:149-160 | Performs exactly `KeyPressStep`: the first matching binding runs, or nothing happens. |
| Meowmeow.WindowManager.MapRequestHandler | meowmeow.c:163-171 | Maps the window and resizes it to the whole display, pushes it as the head (a second entry if it is already managed) and refocuses: exactly `MapRequestStep`. |
| Meowmeow.WindowManager.MapRequestHandlerFixed | meowmeow.c:163-171 | Maps and resizes the window, adds it only when the corrected check does not find it, and refocuses: exactly `MapRequestFixedStep`. |
| Meowmeow.WindowManager.DestroyNotifyHandler | meowmeow.c:174-183 | Uses the check and the remove as written: exactly `DestroyNotifyStep`. A window whose only entry is the last one of a chain of two or more is never unlinked. |
| Meowmeow.WindowManager.DestroyNotifyHandlerFixed | meowmeow.c:174-183 | Uses the corrected check and remove: exactly `DestroyNotifyFixedStep`, so every managed window that is destroyed is unlinked. |
| Meowmeow.WindowManager.HandleEvent | meowmeow.c:193-195 | Dispatches through `evHandler` to the handlers as written or to the corrected ones: exactly `Step` of that variant. |
| Meowmeow.WindowManager.Loop | meowmeow.c:186-197 | Handles the events in order while `running` holds: exactly `Run` of the chosen variant, for any events. |

## Left out

- Xlib: every X request (XMapWindow, XMoveResizeWindow, XRaiseWindow, XSetInputFocus, XSendEvent) is an entry in the command log, not a call.
- sendDeleteEvent: only the delete request and its target window are recorded. The ClientMessage fields and the WM_PROTOCOLS and WM_DELETE_WINDOW atom lookups are not modelled, because they are X protocol detail.
- spawn: fork, setsid and execvp are recorded as one spawned argv. The child process is outside the window manager's state.
- XNextEvent and XkbKeycodeToKeysym: events come from a sequence, and a key event carries its keysym, because the X server is not modelled.
- setup: the display-size queries become constructor parameters. XGrabKey, XSelectInput and the SIGCHLD handler (sigchld, waitpid) are not modelled, because they only configure the X server and the OS.
- die, main, XOpenDisplay and XCloseDisplay are process start-up and shutdown, outside the core.
- calloc and free: allocation is `new`, and freed entries simply leave the buffer's footprint. The `free(winBuff)` at the end of quit is not modelled.
- Event types at or above LASTEvent: `evHandler[ev.type]` is indexed without a bound check. The model treats every type without a handler as ignored.
- Dispatch.QuitDrainsStack: states the head-then-predecessors order only for distinct handles. With a repeated head handle, remWindow unlinks the later entry first, and the order is `DrainOrder`. `Dispatch.QuitDeletesEveryWindow` holds without that assumption.
- Dispatch.CloseCurFocusesPredecessor: states the new head only for distinct handles. With a repeated head handle, remWindow unlinks the later entry and the head stays, as `WindowStack.Removed` says.
- UnmapNotify has no handler in the source. A window the client unmaps stays in the buffer, and that is how a managed window can be mapped again.
- Window handles are unbounded naturals and the display size is an unbounded integer. No handler does arithmetic on them.
- The binding table has no entry for closeCurWindow. It is modelled anyway, because its action exists in the source.

## Findings

| source | as written | input that shows it | evidently intended | confidence | as-written member | corrected member |
|---|---|---|---|---|---|---|
| meowmeow.c:163-171 | mapRequestHandler calls addWindow (windowbuff.c:3-18) with no check that the window is already managed. A window that is withdrawn and mapped again (unmaps are not handled) gets a second entry. A destroy notification then unlinks only one entry. | MapRequest A, MapRequest A, DestroyNotify A: the buffer still holds A. | Hold each window once, so that a destroyed window is no longer managed. | not executed | Dispatch.DuplicateMapKeepsDestroyedWindow (with Dispatch.MapRequestKeepsInv, Meowmeow.WindowManager.MapRequestHandler) | Meowmeow.WindowManager.MapRequestHandlerFixed (with Dispatch.MapRequestFixedKeepsInv, Dispatch.RunKeepsInv for the corrected variant) |
| windowbuff.c:53-58 | On two or more windows, the loop of chkWindowExists stops as soon as `we->next` is the head. The last entry is therefore never compared. So remWindow (windowbuff.c:21) and destroyNotifyHandler (meowmeow.c:177) ignore that window. | addWindow(A), addWindow(B), then chkWindowExists(A) returns false. A DestroyNotify for A then leaves the destroyed A in the buffer. | Report every window in the buffer, so that a destroyed window is always unlinked. | not executed | WindowBuffer.WindowBuff.ChkWindowExists (with WindowStack.ExistsAsWrittenMissesLast, WindowBuffer.LastWindowSurvivesRemoval, Dispatch.DestroyedLastWindowStaysManaged) | WindowBuffer.WindowBuff.ChkWindowExistsFixed (with WindowBuffer.WindowBuff.RemWindowFixed, used by Meowmeow.WindowManager.DestroyNotifyHandlerFixed) |
