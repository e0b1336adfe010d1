# RISC-V bare-metal examples: interrupt lifecycle and Morse decoder

This project models two small bare-metal RISC-V programs and proves, in Dafny,
what they do.

- `interrupt.dfy` (module `Interrupt`) models `instr/interrupt/int.c`. The
  program is a trap-driven job: a timer interrupt counts ticks, an external
  interrupt pauses and resumes the job, and an `exit` system call taken
  through `ecall` shuts it down. Class `Hart` holds the two globals
  (`current_state`, `work_timer`), the CSRs `mie`, `mepc` and `mcause`, and
  the UART output. Its methods are the handler, the system-call handler,
  `exit`, `init_interrupts`, one iteration of `main`'s polling loop, and
  `main` itself. Each method is proved against a function on the value
  `Machine`: `Handle`, `Syscall`, `Poll`, and `Run` over a schedule of
  events. The lemmas about those functions state the handler's paths, the
  enable-bit invariant, and the fact that shutdown is terminal. A trap is an
  event between two iterations of the loop. The hardware delivers a timer or
  external interrupt only while its enable bit in `mie` is set.
- `morse.dfy` (module `Morse`) models `instr/morse/morse.c`: the code table,
  `my_strlen`, `my_strcmp`, `morseToChar` and `decode_morse_message`.
  - The helpers are loop methods over NUL-terminated character sequences.
    Each is specified by a function: `CString`, `Mismatch`, and `Lookup` as a
    search of the table.
  - The decoder is a method over an input array and an output array. It uses
    an 8-character token buffer.
  - It is proved to write `Decode(table, s)` followed by a NUL, where `s` is
    the input's C string. `Decode` is the tokenizer `TokensFrom` (it skips
    spaces and cuts tokens of at most seven characters) followed by `Emit`
    for each token.
- `morse_roundtrip.dfy` (module `MorseRoundTrip`) checks the decoder against
  an encoder. The encoder writes each letter as its code and each word space
  as `/`, with single spaces between the pieces. Decoding undoes encoding,
  and the program's example input decodes to `HELLO`.

## Model

| member | source | states |
|---|---|---|
| Interrupt.DisableTimer | instr/interrupt/int.c:40-41 | `clear_csr(mie, 1<<7)` leaves the timer interrupt disabled and every other bit of `mie` unchanged |
| Interrupt.EnableTimer | instr/interrupt/int.c:37-38 | `set_csr(mie, 1<<7)` leaves the timer interrupt enabled and every other bit unchanged |
| Interrupt.DigitChar | instr/interrupt/int.c:72 | `v + '0'` as a `uint32_t` converted to `char` keeps the low eight bits; for v ≤ 9 it is the digit of v |
| Interrupt.Syscall | instr/interrupt/int.c:61-79 | handle_syscall only appends to the UART, changes no counter or CSR, and either keeps the state or shuts down |
| Interrupt.Handle | instr/interrupt/int.c:82-103 | the handler only appends output and never leaves Shutdown. Only a timer cause changes `work_timer`, and only an ecall changes `mepc`. It keeps the `mie` bits other than bit 7 and does not change `mcause` |
| Interrupt.TimerPath | instr/interrupt/int.c:85-86 | a timer cause increments `work_timer` modulo 2^32 and changes nothing else, whatever the state |
| Interrupt.ExternalWhileRunning | instr/interrupt/int.c:88-91 | an external cause while Running pauses, writes a clear then "PAUSE", clears `mie` bit 7 and keeps the other bits, the counter and `mepc` |
| Interrupt.ExternalWhilePaused | instr/interrupt/int.c:92-96 | an external cause while Paused resumes, writes a clear, "JOB " and the counter's digit, sets `mie` bit 7 and keeps the other bits, the counter and `mepc` |
| Interrupt.NoOpCases | instr/interrupt/int.c:83-102 | an external cause in Shutdown, and any cause other than the three, change nothing and write nothing |
| Interrupt.SyscallExit | instr/interrupt/int.c:69-74 | call 93 writes a clear, "OFF " and the digit of a0, and shuts down |
| Interrupt.SyscallOther | instr/interrupt/int.c:75-77 | any other call writes a clear then "UNKWN SYS" and keeps the state |
| Interrupt.MepcAdvance | instr/interrupt/int.c:98-101 | every environment call returns to `mepc + 4` (mod 2^32), whatever the call number, keeping the counter and `mie` |
| Interrupt.HandleKeepsEnable | instr/interrupt/int.c:88-97 | every trap keeps the invariant: outside Shutdown, `mie` bit 7 is set exactly when Running, and bit 11 is set |
| Interrupt.Poll | instr/interrupt/int.c:126-148 | one loop iteration only appends output, keeps `work_timer` and `mie`, and ends the loop exactly in Shutdown. Paused and Shutdown change nothing. Running records the counter as `last` and reports only a changed counter, except when it exits. It shuts down exactly when the counter is at least 6 |
| Interrupt.PollReports | instr/interrupt/int.c:128-132 | a running iteration below 6 with a changed counter writes a clear, "JOB " and the counter's digit, and changes nothing else |
| Interrupt.PollIdle | instr/interrupt/int.c:127-139 | a running iteration below 6 with an unchanged counter writes nothing and changes nothing |
| Interrupt.PollExits | instr/interrupt/int.c:127-135 | a running iteration at 6 or more reports a changed counter, then `exit(0)` writes a clear, "OFF " and '0', shuts down and moves `mepc` past the `ecall`. It keeps the counter and `mie`, and the loop goes on to the next iteration |
| Interrupt.Trap | instr/interrupt/int.c:83 | a trap records its cause in `mcause`, which the handler then reads and keeps, and only appends output |
| Interrupt.ExitCall | instr/interrupt/int.c:106-110 | `exit(status)` shuts down and writes a clear, "OFF " and the digit of the status as a 32-bit word. It moves `mepc` past the `ecall`, records cause 11 and keeps the counter and `mie` |
| Interrupt.Step | instr/interrupt/int.c:82-148 | the program after one event: a requested trap is taken only when `Deliverable` (its enable bit is set) and is dropped otherwise; an iteration is `Poll`; nothing happens once the loop has ended. `StepKeepsInvariant` and `PausedTimerFrozen` state its properties |
| Interrupt.Run | instr/interrupt/int.c:126-148 | the program after a schedule of events, one `Step` after another. `RunKeepsInvariant`, `RunShutdownTerminal`, `RunOutputGrows` and `RunExited` state its properties |
| Interrupt.Boot | instr/interrupt/int.c:122-124 | `main` before its loop: `mie` set by `init_interrupts`, `last_work_time` 0 and the greeting "HELLO" written. `BootInvariant` states its property |
| Interrupt.BootInvariant | instr/interrupt/int.c:113-124 | the initial globals plus `init_interrupts` and the greeting satisfy the invariant |
| Interrupt.StepKeepsInvariant | instr/interrupt/int.c:82-148 | every delivered trap and every loop iteration keep the invariant, and the loop ends only after shutdown |
| Interrupt.RunKeepsInvariant | instr/interrupt/int.c:121-148 | every schedule of traps and iterations keeps the invariant |
| Interrupt.RunShutdownTerminal | instr/interrupt/int.c:73 | no schedule leaves Shutdown |
| Interrupt.RunOutputGrows | instr/interrupt/int.c:49-58 | the UART output only grows |
| Interrupt.PausedTimerFrozen | instr/interrupt/int.c:91 | while Paused, no event changes the counter, because the timer interrupt is disabled |
| Interrupt.ExamplePauseResume | instr/interrupt/int.c:121-131 | example schedule up to the resume: HELLO, JOB 1, PAUSE, a timer interrupt that is not delivered while paused, then JOB 1 |
| Interrupt.ExampleFinish | instr/interrupt/int.c:133-146 | the rest of the example: five ticks, JOB 6, then exit(0), which writes OFF 0 and shuts down, and the loop ends |
| Interrupt.ExampleRun | instr/interrupt/int.c:121-151 | the whole example schedule from boot, with its final state and full output |
| Interrupt.RunExited | instr/interrupt/int.c:145-146 | once the loop has ended, the model's configuration no longer changes |
| Interrupt.Hart.constructor | instr/interrupt/int.c:7-8 | Running, counter 0, CSRs 0, no output |
| Interrupt.Hart.UartPutchar | instr/interrupt/int.c:44-47 | appends one character event |
| Interrupt.Hart.UartPuts | instr/interrupt/int.c:49-58 | appends a clear, then each character of the string in order |
| Interrupt.Hart.HandleSyscall | instr/interrupt/int.c:61-79 | the new state is `Syscall` of the old one |
| Interrupt.Hart.InterruptHandler | instr/interrupt/int.c:82-103 | the new state is `Handle` of the old one |
| Interrupt.Hart.TakeTrap | instr/interrupt/int.c:83 | the cause is written to `mcause`, then the handler runs |
| Interrupt.Hart.Exit | instr/interrupt/int.c:106-110 | an ecall trap with a7 = 93 and a0 = status as a 32-bit word |
| Interrupt.Hart.InitInterrupts | instr/interrupt/int.c:116 | `mie` becomes (1<<7)\|(1<<11); nothing else changes |
| Interrupt.Hart.ForegroundIteration | instr/interrupt/int.c:127-147 | state, new `last` and loop exit are `Poll` of the old state |
| Interrupt.Hart.RunProgram | instr/interrupt/int.c:121-151 | `main` on a schedule ends in `Run(Boot(..), schedule)`, returning whether the loop ended |
| Morse.TableShape | instr/morse/morse.c:3-21 | 36 entries, every code 1 to 5 characters (fits `char morse[6]` with its NUL), no letter is '?' or ' ' |
| Morse.TableSymbols | instr/morse/morse.c:9-18 | every code is made of dots and dashes |
| Morse.TableWellFormed | instr/morse/morse.c:3-21 | the table has the shape the lookup relies on |
| Morse.CodesDistinct | instr/morse/morse.c:9-18 | the 36 codes are pairwise distinct |
| Morse.TableLetters | instr/morse/morse.c:9-18 | the letters are A to Z, then 0 to 9 |
| Morse.LettersDistinct | instr/morse/morse.c:9-18 | the 36 letters are pairwise distinct |
| Morse.CString | instr/morse/morse.c:27 | the characters before the first NUL: none of them is NUL, and a NUL follows when the sequence holds one |
| Morse.MyStrlen | instr/morse/morse.c:23-32 | returns the index of the first NUL, which is the C string's length |
| Morse.Mismatch | instr/morse/morse.c:39-50 | the first index at which the strings differ or both hold NUL. The strings agree before it, with no NUL |
| Morse.MismatchDecides | instr/morse/morse.c:43-49 | two C strings are equal exactly when they agree at that index |
| Morse.MyStrcmp | instr/morse/morse.c:34-51 | returns `c1 - c2` at the first difference, and 0 exactly when the two C strings are equal |
| Morse.SlotHoldsCode | instr/morse/morse.c:5 | a code stored in its 6-byte slot reads back, as a C string, as the code |
| Morse.LookupFrom | instr/morse/morse.c:56-62 | the search from entry `i` on: the letter of the first entry whose code is `code`, or '?' when there is none. `LookupFromFinds`, `LookupFromMisses` and `LookupFromResult` state its properties |
| Morse.Lookup | instr/morse/morse.c:53-63 | the letter `morseToChar` returns for a token's characters: the search from the first entry. `LookupRoundTrip`, `LookupFallback` and `LookupResult` state its properties |
| Morse.MorseToChar | instr/morse/morse.c:53-63 | returns the letter of the first entry whose code equals the C string, or '?' |
| Morse.LookupRoundTrip | instr/morse/morse.c:53-60 | each entry's code looks up to that entry's letter |
| Morse.LookupFallback | instr/morse/morse.c:56-62 | the lookup gives '?' exactly for strings that are not one of the 36 codes |
| Morse.LookupResult | instr/morse/morse.c:53-63 | for any table, the lookup gives a letter of the table or '?' |
| Morse.SpacesAt | instr/morse/morse.c:132-138 | counts the run of spaces: it stays in the input and stops at a non-space |
| Morse.TokenAt | instr/morse/morse.c:105-116 | the token length is at most the room left and stays in the input; a shorter token stops at a space |
| Morse.TokenOf | instr/morse/morse.c:117-144 | the token cut at `i`: a separator when it starts with '/' (what follows the '/' is ignored); otherwise its characters, with whether two or more spaces follow it |
| Morse.TokensFrom | instr/morse/morse.c:95-117 | the sequence of tokens the decoder cuts: spaces are skipped and tokens of up to 7 non-spaces are cut. `SkipSpaces`, `TokenStep`, `LongRunSplits` and `TokensEmpty` state its properties |
| Morse.Emit | instr/morse/morse.c:119-144 | what one token writes: one space for a separator; otherwise its looked-up letter, then a space when it ends a word. `SeparatorWrites` and `LetterWrites` state this on the input |
| Morse.EmitAll | instr/morse/morse.c:95-145 | what the tokens write, one after another. `EmitAllLength` and `EmitAllAlphabet` state its properties |
| Morse.DecodeFrom | instr/morse/morse.c:95-145 | the output written from input position `i` on: the emission of the tokens cut from there. `DecodeStep`, `DecodeEmpty`, `DecodeLength` and `DecodeAlphabet` state its properties |
| Morse.Decode | instr/morse/morse.c:88-148 | the whole output before the NUL. `DecodeMorseMessage` is proved to write it, and `DecodeEncode` proves it inverts encoding |
| Morse.TokenAtIs | instr/morse/morse.c:106-111 | a run of non-spaces ended by a space, the end, or 7 characters is the token length |
| Morse.SkipSpaces | instr/morse/morse.c:97-99 | a run of spaces cuts no token |
| Morse.TokenStep | instr/morse/morse.c:104-117 | at a non-space a token is cut, ahead of the tokens after it |
| Morse.DecodeStep | instr/morse/morse.c:104-144 | at a non-space the output begins with what that token emits |
| Morse.DecodeSkipsSpaces | instr/morse/morse.c:95-99 | leading and repeated spaces write nothing by themselves |
| Morse.SeparatorWrites | instr/morse/morse.c:119-124 | a token starting with '/' writes exactly one space |
| Morse.LetterWrites | instr/morse/morse.c:126-144 | any other token writes its looked-up letter, then a space exactly when two or more spaces follow it |
| Morse.LongRunSplits | instr/morse/morse.c:106-116 | a run of more than 7 non-spaces is cut after 7, and the rest starts the next token |
| Morse.EmitAllLength | instr/morse/morse.c:121-144 | the tokens write exactly as many characters as their widths add up to: 2 for a code ending a word, else 1 |
| Morse.EmitAllAlphabet | instr/morse/morse.c:121-142 | every character the tokens write is a table letter, '?' or ' ' |
| Morse.TokensWidth | instr/morse/morse.c:95-117 | the tokens are no wider than the input they are cut from, and narrower when it starts with a space |
| Morse.TokensEmpty | instr/morse/morse.c:95-102 | no token is cut exactly when the rest of the input is all spaces |
| Morse.DecodeEmpty | instr/morse/morse.c:95-102 | the output is empty exactly when the input is empty or all spaces |
| Morse.DecodeLength | instr/morse/morse.c:95-147 | the output is no longer than the input, and shorter when the input starts with a space |
| Morse.DecodeAlphabet | instr/morse/morse.c:121-142 | every output character is a table letter, '?' or ' ' |
| Morse.CountSpaces | instr/morse/morse.c:132-138 | returns the number of spaces from position p on |
| Morse.ExtractToken | instr/morse/morse.c:104-117 | copies the token into the 8-byte buffer in bounds and NUL-terminates it; its length is `TokenAt` |
| Morse.TokenCode | instr/morse/morse.c:117 | the filled buffer holds the token's characters as a C string |
| Morse.DecodeToken | instr/morse/morse.c:104-144 | one pass of the main loop after the spaces. It advances past the token and writes exactly what the token emits, leaving the rest of the output unchanged |
| Morse.DecodeNext | instr/morse/morse.c:95-144 | the same pass on the input's token sequence: the k-th token is consumed and the output holds what tokens 0..k emit |
| Morse.DecodeMorseMessage | instr/morse/morse.c:88-148 | writes `Decode(table, s)` then a NUL at the front of the output, and nothing after it |
| MorseRoundTrip.TableDecodable | instr/morse/morse.c:9-63 | every code of the program's table is a token of at most 7 dots and dashes that looks up to its own letter |
| MorseRoundTrip.PieceCut | instr/morse/morse.c:104-117 | a piece of 1 to 7 non-spaces, followed by the end or one space, is cut whole as its token |
| MorseRoundTrip.JoinLaid | instr/morse/morse.c:95-117 | pieces joined by single spaces lie one after the other in the input |
| MorseRoundTrip.LaidCut | instr/morse/morse.c:104-117 | pieces laid out that way are each cut whole |
| MorseRoundTrip.TokensCut | instr/morse/morse.c:95-117 | and so the input cuts into exactly their tokens |
| MorseRoundTrip.EmitSpelled | instr/morse/morse.c:119-144 | the tokens of pieces spelling a message write that message |
| MorseRoundTrip.DecodeJoin | instr/morse/morse.c:88-148 | pieces spelling a message, joined by single spaces, decode to the message |
| MorseRoundTrip.PieceSpells | instr/morse/morse.c:9-18 | the encoder's piece for a space or a table letter spells it |
| MorseRoundTrip.DecodeEncode | instr/morse/morse.c:88-148 | decoding undoes encoding, for every table the decoder can invert |
| MorseRoundTrip.HelloJoin | instr/morse/morse.c:153 | the example input is the codes of H, E, L, L, O joined by spaces |
| MorseRoundTrip.HelloExample | instr/morse/morse.c:153-157 | the example input decodes to "HELLO" |
| MorseRoundTrip.ExampleMessage | instr/morse/morse.c:151-157 | main's call on the example input, with a 128-byte output buffer, yields "HELLO" |

## Left out

- CSR access by inline assembly (`read_csr`, `write_csr`, `set_csr`, `clear_csr`). `mie`, `mepc` and `mcause` are plain fields. The CSRs start at 0, because their reset values are not set by the program.
- Reading a7 and a0 with `mv`. They are parameters of the system-call handler.
- Writing `mtvec` and `mstatus` in `init_interrupts`, and the register save and restore of `__attribute__((interrupt))`. These are hardware set-up with no effect on the modelled state.
- The UART's memory-mapped addresses. Output is the sequence of events written (a clear, then characters).
- Traps after `main` returns. Breaking out of the loop turns no interrupt off, so on the hardware a later tick would still run the timer path. The model stops at the end of the loop: `Step` does nothing once the loop has ended.
- Asynchronous pre-emption and `volatile`. A trap is applied only between two iterations of the loop. So the model cannot show a tick arriving between the report (int.c:128-131) and the `>= 6` test (int.c:133). On the hardware that tick makes the program write "OFF" without first reporting the final count. The hardware writing `mepc` on trap entry is not modelled; `mepc` changes only by the handler's advance.
- A requested interrupt whose enable bit is clear is dropped, not left pending. On the hardware a pending timer interrupt is taken as soon as `mie` bit 7 is set again; a schedule can still deliver one right after the resume.
- The busy-wait loops in `main`, which have no effect on the modelled state.
- DigitChar: `v + '0'` is modelled as written. It is the low 8 bits of the 32-bit sum, and a digit only for values up to 9.
- The string literals passed to `uart_puts` are modelled as their characters, without the NUL.
- Morse.DecodeMorseMessage: the ghost `s`, the input's C string, is a parameter. The method requires the output to have room for the decoded message and its NUL. The source assumes this of its caller; its own caller passes a 128-byte buffer.
- Morse.DecodeMorseMessage: requires the input and output arrays to be distinct. `main` passes two separate buffers. Decoding in place, which the source also does correctly, is not modelled.
- The lookup and the decoder take the table as a parameter. The program passes `MORSE_TABLE`. Their callers must pass a table of the program's shape (`WellFormed`: 36 entries, each code a NUL-free string that fits its 6-byte slot), which `TableWellFormed` proves for `MORSE_TABLE`.
- Morse.MyStrcmp: `c1 - c2` is the difference of the two characters' code points. C's signedness of `char` is not modelled; the lookup only asks whether it is zero.
- The Morse `main`'s printing of "Decoded: " and of the result through its own `uart_puts`/`uart_putchar`. This is output only; the example keeps the decoding.
- The encoder in `MorseRoundTrip` is not part of the source. It is a reference against which the decoder is checked.
