# Fluff.js game runtime: the per-tick bookkeeping of `src/game.cc`

Fluff.js runs a JavaScript game on top of a window, an OpenGL context and a
set of sockets. `src/game.cc` holds the frame loop and what it does every
tick. This project models that bookkeeping in Dafny and proves properties of
the model:

- **the event translator** (`GameEvents`). It drains the window's queue of raw
  events. Each event updates the key-down and button-down tables, the Ctrl,
  Shift and Alt flags, the running, reload, focus and pointer-inside flags,
  and the pointer position and wheel delta. Four events ask for the script
  callbacks `onFocus`, `onBlur`, `onEnter` and `onLeave`.
- **the socket poll** (`GameSockets`). It calls `handle()` on every registered
  socket whose status is positive and not 3 (closing), in registry order.
- **the frame loop** (`GameLoop`, `GameExit`). A tick drains the events, polls
  the sockets, calls `onUpdate` and `onDraw` and displays the frame. The loop
  runs while the running flag holds. It then closes every socket, calls
  `onExit` and closes the window. The script's `exit()` only clears the
  running flag.
- **the font registry** (`GameResetFonts`, `GameLoadFont`, the font lookup of
  `GameDrawText`). It keeps two parallel lists, the font names and the loaded
  fonts, plus the name of the current font.
- **the blend-mode choice** (`GameSetBlendMode`). Mode 0 selects alpha
  blending, mode 1 additive blending, and any other mode keeps the function in
  force.

The model has two layers:

- `trace.dfy`, `events.dfy` and `sockets.dfy`, plus the first half of
  `game.dfy`, state what the code does as values. There is a state record
  (`Events.State`), a step function per event (`Events.Next`) and its fold over
  a queue (`Events.Drain`). The actions a run performs form a trace
  (`Trace.Action`), and `Game.Run` and `Game.LoopTrace` give the ticks of a
  run and its shutdown.
- `Game.Runtime` is the runtime itself: a class over the key and button arrays
  and the global flags, with one method per function of the source. Each
  method is proved to leave the state and the trace that the value layer
  gives. `Fonts.FontRegistry` is a class over the two font lists.

The callbacks into the script, the socket calls and the window's display and
close appear as entries of the trace field `Game.Runtime.trace`.

Releasing either Ctrl key clears the Ctrl flag even while the other Ctrl key
is still held (src/game.cc:244-248); `Events.CtrlClearedWhileOtherVariantHeld`
exhibits this. Shift (src/game.cc:249-253) and Alt (src/game.cc:254-258)
behave the same way, as `Events.ModifierFlags` states for all three.

## Model

| member | source | states |
|---|---|---|
| Events.Flags | src/game.cc:211-315 | Only a close request, an Escape press or an F5 press clears the running flag. Only F5 sets the reload flag. Focus follows the focus events, pointer presence follows the enter and leave events. The pointer position and the wheel delta are overwritten, never accumulated. An unhandled event changes nothing. |
| Events.KeyTable | src/game.cc:214-280 | A press or release of key K sets or clears entry K and leaves every other entry alone. A lost focus clears the table iff the key-reset policy is on. No other event touches the table. |
| Events.ButtonTable | src/game.cc:271-311 | A button press or release sets or clears only that button. A lost focus and the pointer leaving the window both clear the table iff the button-reset policy is on. No other event touches it. |
| Events.ModifierFlags | src/game.cc:224-258 | Pressing either variant of Ctrl, Shift or Alt sets that flag and releasing either variant clears it. No other event changes the flag. |
| Events.CtrlClearedWhileOtherVariantHeld | src/game.cc:241-248 | After pressing both Ctrl keys and releasing the left one, the right Ctrl key is down but the Ctrl flag is clear. |
| Events.LostFocusIdempotent | src/game.cc:271-280 | A second lost focus in a row changes no state the first did not. |
| Events.OnlyWindowCallbacks | src/game.cc:266-303 | A drain asks only for onFocus, onBlur, onEnter and onLeave, at most one per event. |
| Events.DrainAppend | src/game.cc:210-316 | Draining a queue a + b is draining a and then b. |
| Events.DrainRunning | src/game.cc:206-317 | After a drain the loop still runs iff it ran before and no event of the queue was a close request, an Escape press or an F5 press. |
| Events.DrainReload | src/game.cc:214-222 | After a drain a reload is requested iff one was before or F5 was pressed. |
| Events.DrainKeepsKey | src/game.cc:214-280 | A key that no event of the queue touches keeps its down state. |
| Events.LastKeyEventDecides | src/game.cc:222 | The last press or release of key K in the queue decides its down state, provided no later lost focus clears the table. |
| Events.DrainKeepsModifier | src/game.cc:224-258 | A modifier that no key event of the queue operates keeps its flag. |
| Events.LastModifierEventDecides | src/game.cc:224-258 | The last press or release of either variant of a modifier decides its flag. |
| Sockets.ServicedExactlyReady | src/game.cc:197-204 | A poll services socket j iff j is a registered index whose status is positive and not 3. |
| Sockets.ServicedInOrder | src/game.cc:198 | A poll services the sockets in registry order, each at most once. |
| Sockets.HandlesEach | src/game.cc:201 | The i-th handle() call of a poll is on the i-th serviced socket, and there is one call per serviced socket. |
| Sockets.ClosesEach | src/game.cc:189-191 | Shutdown makes one close() call per registered socket, the i-th on socket i. |
| Game.TickInPhaseOrder | src/game.cc:177-188 | A tick starts with the event drain, then asks only for window callbacks and socket handling, and ends with onUpdate, onDraw and the display. Its actions come in that order. |
| Game.AfterTickRunning | src/game.cc:177-188 | After a tick the loop still runs iff it ran before and the tick held no stop request: a close, Escape, F5 or the script's exit(). |
| Game.RunStopsOnlyWhenHalted | src/game.cc:177 | A run performs at most one tick per supplied tick, and stops short only once the running flag is down. |
| Game.RunBeforeShutdown | src/game.cc:177-188 | No action of the ticks of a run is a shutdown action. |
| Game.StopRequestEndsRun | src/game.cc:177-193 | If tick j is the first tick with a stop request, the loop performs exactly j + 1 ticks. It then closes every socket, calls onExit and closes the window. |
| Game.NoStopKeepsRunning | src/game.cc:177-188 | Without a stop request the loop performs every tick it is given and never calls onExit. |
| Game.ShutdownPhases | src/game.cc:189-193 | Shutdown closes the sockets, then calls onExit, then closes the window. |
| Game.ShutdownComesLast | src/game.cc:177-193 | Once the first socket is closed no tick action follows, and the shutdown actions keep their order. |
| Game.ClearAll | src/game.cc:273-278 | A reset leaves every entry of the table up. |
| Game.Runtime.constructor | src/game.cc:58 | GameCreate leaves the loop running. The model also starts with every key and button up, every flag clear and an empty trace. |
| Game.Runtime.PressKey | src/game.cc:214-239 | The KeyPressed arm leaves the state that Events.Press gives. |
| Game.Runtime.ReleaseKey | src/game.cc:241-259 | The KeyReleased arm leaves the state that Events.Release gives. |
| Game.Runtime.RequestClose | src/game.cc:262-264 | The Closed arm clears the running flag. |
| Game.Runtime.GainFocus | src/game.cc:266-269 | The GainedFocus arm sets focus and asks for onFocus. |
| Game.Runtime.LoseFocus | src/game.cc:271-280 | The LostFocus arm leaves the state that Events.Blur gives and asks for onBlur. |
| Game.Runtime.ScrollWheel | src/game.cc:283-285 | The MouseWheelMoved arm overwrites the wheel delta. |
| Game.Runtime.MovePointer | src/game.cc:287-290 | The MouseMoved arm overwrites the pointer position. |
| Game.Runtime.PointerEntered | src/game.cc:292-295 | The MouseEntered arm sets pointer presence and asks for onEnter. |
| Game.Runtime.PointerLeft | src/game.cc:297-303 | The MouseLeft arm leaves the state that Events.Leave gives and asks for onLeave. |
| Game.Runtime.MarkButton | src/game.cc:305-311 | The button arms set or clear only that button. |
| Game.Runtime.Translate | src/game.cc:211-315 | One pass of the switch leaves the state Events.Next gives and appends the callbacks the event asks for. |
| Game.Runtime.DrainQueue | src/game.cc:210-316 | The event loop leaves the state Events.Drain gives and appends the callbacks of the whole queue, in queue order. |
| Game.Runtime.DrainEvents | src/game.cc:206-317 | GameEvents records updateInput() and then drains the queue. |
| Game.Runtime.PollSockets | src/game.cc:197-204 | The poll appends one handle() call per serviced socket, in registry order. |
| Game.Runtime.CloseSockets | src/game.cc:189-191 | Shutdown appends close() on every registered socket, whatever its status, in registry order. |
| Game.Runtime.Exit | src/game.cc:319-322 | exit() clears the running flag and changes nothing else. |
| Game.Runtime.RunTick | src/game.cc:178-187 | One iteration leaves the state Game.AfterTick gives and appends the tick's actions. |
| Game.Runtime.CloseDown | src/game.cc:189-193 | The end of the loop appends the shutdown sequence. |
| Game.Runtime.Ticks | src/game.cc:177-188 | The loop leaves the state and appends the trace of Game.Run. |
| Game.Runtime.Loop | src/game.cc:172-194 | GameLoop performs Game.LoopTrace: the ticks and, once the running flag is down, the shutdown. |
| Fonts.FontRegistry.constructor | src/game.cc:106-117 | A new registry is in the state GameResetFonts leaves: both lists empty, no current font, text drawing off. |
| Fonts.FontRegistry.Reset | src/game.cc:106-117 | GameResetFonts switches text drawing off, clears the current font and empties both lists. |
| Fonts.FontRegistry.Find | src/game.cc:120-125 | The lookup returns the first index registered under the name, and None iff the name is not registered. |
| Fonts.FontRegistry.Load | src/game.cc:119-138 | A registered name is made current and both lists are unchanged. A new name whose file loads is appended to both lists and made current. A failed load returns false and changes nothing. The lists stay the same length with distinct names. |
| Fonts.FontRegistry.DrawText | src/game.cc:140-169 | Drawing switches text drawing on and succeeds iff the name is registered. It then uses the font loaded from that name. |
| Blend.SetBlendMode | src/game.cc:91-104 | The result is the function in force or one of the two known functions, and its source factor is kept or SrcAlpha. |
| Blend.KnownModes | src/game.cc:92-98 | Mode 0 selects the blend function (source alpha, one minus source alpha) and mode 1 selects (source alpha, one), whatever was in force before. |
| Blend.KnownModesForgetPrevious | src/game.cc:92-98 | Modes 0 and 1 select a function independent of the one in force. |
| Blend.OtherModesKeepCurrent | src/game.cc:100-101 | Every mode other than 0 and 1 keeps the function in force. |
| Blend.SetBlendModeIdempotent | src/game.cc:91-104 | Setting the same mode twice is the same as setting it once. |
| Blend.KnownModesDiffer | src/game.cc:92-98 | Modes 0 and 1 select different functions. |

## Left out

- Window creation, sizing, caption and the OpenGL setup (src/game.cc:40-89) call libraries outside this repository. The constructor of `Game.Runtime` keeps only the running flag and the cleared tables.
- The `glBlendFunc` calls: `Blend.SetBlendMode` returns the selected function instead of calling OpenGL.
- The frame time passed to `onUpdate`, the colour values and the text scaling and rotation are floating point. They come from the graphics libraries, so `onUpdate` is a trace entry without its argument.
- Text rendering in `GameDrawText` (the string, its position, colour, rotation and scale, and the draw call) calls a library. `Fonts.FontRegistry.DrawText` keeps only the lookup and its outcome.
- Reading a font file is outside the model. Its outcome is the parameter `loaded` of `Fonts.FontRegistry.Load`.
- The `delete` calls of `GameResetFonts` and of a failed `GameLoadFont` free memory, which the model does not track.
- The script's callbacks (`callFunction`, `callSimpleEvent`) run code in the scripting engine. They are trace entries. The only effect of a script the model keeps is a call to `exit()` during a tick (`Game.Tick.scriptExits`).
- `updateInput()`, `resetKeys()`, `resetButtons()`, `Socket::handle()` and `Socket::close()` are not part of this model. `updateInput()` and the socket calls are trace entries. `updateInput()` is assumed not to change the state the model tracks. `resetKeys(false)` and `resetButtons(false)` are assumed to mark every entry up.
- Socket statuses, the registry and the reset policy (`gameKeyReset`, `gameButtonReset`) are fixed for the whole loop (`const` fields of `Game.Runtime`). In the source, script code or `handle()` may change them between ticks.
- `fflush(stdout)` is output only.
- The sizes of the key and button tables are declared outside this file. The model uses the SFML 1.x key count (321) and button count (5) and the SFML 1.x codes of Escape, F5 and the modifier keys.
- Game.Runtime.Loop: the loop runs over a finite sequence of ticks supplied by the caller. The source loops until the running flag drops. When the supplied ticks run out while the flag still holds, the model stops without the shutdown sequence.
- Blend.SetBlendMode: the contract only bounds the result. The exact table is in Blend.KnownModes (modes 0 and 1) and Blend.OtherModesKeepCurrent (every other mode).
