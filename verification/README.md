# TWI (I2C) master driver and bus scan of an ATmega328P lab

This project is a Dafny model of the AVR TWI driver `twi.c`. The model covers five parts:

- `twi_init` sets up the pull-ups and the prescaler.
- `twi_start`, `twi_write`, `twi_read` and `twi_stop` write control words to TWCR.
- `twi_write` reduces the hardware status byte to ACK or NACK.
- `twi_scan` probes every 7-bit address from 8 to 119 with a start, SLA+W, stop sequence.
- `twi_scan` reports each address that acknowledges on the serial console, as a line break followed by the address in base 16.

Registers are `bv8` values. The hardware is an oracle.

- The busy-waits on TWINT after a byte write and after a byte read each become one completion step. The value the hardware leaves behind is a parameter of that step: TWSR for `Write` and TWDR for `Read`. The wait after a start condition is a step with no parameter, and it changes nothing.
- During the scan, the bus is a function from the byte sent to the status byte that follows it.

The names the driver takes from `twi.h` and the AVR headers are symbolic fields of `Twi.Config`. These are the TWCR, TWSR and port bit positions, `TWI_ACK`, `TWI_WRITE` and `TWI_BIT_RATE_REG`. The only thing the model assumes about them is `Config.Valid()`: the five TWCR control bits are distinct, and the R/W bit is 0 or 1.

Modules:

- `Bits`: single register bits and the mask lemmas the C idioms `|= (1<<x)` and `&= ~(1<<x)` need.
- `Twi`: registers, control words, `Init`, `Start`, `Write`, `Read`, `Stop`, status classification and the SLA+W byte.
- `Hex`: base-16 text as avr-libc's `itoa(n, buf, 16)` writes it, and its inverse.
- `Console`: the `uart_puts` calls as a list of strings, the text they make, and a reader that recovers the addresses from that text.
- `Scan`: the probe loop of `twi_scan`, as a method, plus the functional description of its bus trace and of its report.
- `ScanProperties`: range, order and once-per-address of the probes, and what the console shows for a given bus.

The scan's address range 8..119 skips the reserved address groups `0000XXX` and `1111XXX`. These groups come from section 3.1.12 of the NXP I2C-bus specification UM10204. The probe byte is the address shifted left by one, with the R/W bit in bit 0, as section 3.1.10 of UM10204 lays it out.

`itoa(sla, string, 16)` does not pad, so addresses 8 to 15 print as a single digit and 16 to 119 as two. `Hex.FormatWidth` and `ScanProperties.ReportedWidth` state both widths.

## Model

| member | source | states |
|---|---|---|
| Twi.ControlWord | solutions/lab6-i2c-scan/lib/twi/twi.c:44-110 | every TWCR word the driver writes sets TWINT and TWEN; only start sets TWSTA, only stop sets TWSTO, only an acknowledging read sets TWEA, and no bit outside the five control bits is ever set |
| Twi.ControlWordCollisions | solutions/lab6-i2c-scan/lib/twi/twi.c:58-94 | two commands write the same TWCR word exactly when they are the same command, or are a byte write and a non-acknowledging read (both TWINT and TWEN only) |
| Twi.StartStopExclusive | solutions/lab6-i2c-scan/lib/twi/twi.c:47-109 | no command requests a start and a stop condition at the same time |
| Twi.Init | solutions/lab6-i2c-scan/lib/twi/twi.c:27-36 | DDR loses exactly the SDA and SCL bits, PORT gains exactly those bits, TWSR loses exactly TWPS1 and TWPS0, every other bit of the three is unchanged, and TWBR becomes the bit-rate constant |
| Twi.InitIdempotent | solutions/lab6-i2c-scan/lib/twi/twi.c:27-36 | initialising twice leaves the registers as initialising once does |
| Twi.Start | solutions/lab6-i2c-scan/lib/twi/twi.c:44-49 | TWCR holds exactly TWINT, TWSTA and TWEN; no other register changes |
| Twi.Classify | solutions/lab6-i2c-scan/lib/twi/twi.c:67-78 | the result is 0 or 1, and it is 0 (ACK) exactly for status bytes 0x18..0x1f, 0x28..0x2f and 0x40..0x47, that is, when `TWSR & 0xf8` is 0x18, 0x28 or 0x40 |
| Twi.ClassifyIgnoresLowBits | solutions/lab6-i2c-scan/lib/twi/twi.c:68 | status bytes that agree in bits 3..7 classify the same, whatever bits 0..2 hold |
| Twi.ClassifyByCode | solutions/lab6-i2c-scan/lib/twi/twi.c:68-78 | ACK exactly when the five-bit status code is 3, 5 or 8 |
| Twi.Write | solutions/lab6-i2c-scan/lib/twi/twi.c:58-79 | TWDR holds the byte sent, TWCR holds exactly TWINT and TWEN, TWSR is the status the hardware reports, nothing else changes, and the result is 0 or 1 and means ACK exactly when that status classifies as ACK |
| Twi.Read | solutions/lab6-i2c-scan/lib/twi/twi.c:89-98 | TWCR holds exactly TWINT and TWEN, plus TWEA exactly when `ack` equals `TWI_ACK`; the byte returned is the received TWDR unchanged, and nothing else changes |
| Twi.Stop | solutions/lab6-i2c-scan/lib/twi/twi.c:106-110 | TWCR holds exactly TWINT, TWSTO and TWEN; no other register changes |
| Twi.AddressByte | solutions/lab6-i2c-scan/lib/twi/twi.c:127 | for a 7-bit address, shifting the probe byte right by one gives the address back, and bit 0 is the write bit |
| Twi.AddressByteFits | solutions/lab6-i2c-scan/lib/twi/twi.c:125-127 | for a 7-bit address the probe byte equals `2 * sla + TWI_WRITE`, so the shift loses nothing in 8 bits |
| Twi.AddressByteInjective | solutions/lab6-i2c-scan/lib/twi/twi.c:127 | different 7-bit addresses give different probe bytes |
| Hex.Format | solutions/lab6-i2c-scan/lib/twi/twi.c:132 | the text is a non-empty string of lower-case base-16 digits with no leading zero, starts with '0' only for zero, and its length is the number of base-16 digits of the value |
| Hex.ParseFormat | solutions/lab6-i2c-scan/lib/twi/twi.c:132 | reading the printed digits back gives the number printed |
| Hex.FormatParse | solutions/lab6-i2c-scan/lib/twi/twi.c:132 | every canonical digit string is what printing its value produces |
| Hex.FormatInjective | solutions/lab6-i2c-scan/lib/twi/twi.c:132 | different numbers print as different text |
| Hex.FormatWidth | solutions/lab6-i2c-scan/lib/twi/twi.c:132 | a byte prints as one digit below 16 and two digits from 16 on, never zero-padded |
| Hex.FormatByte | solutions/lab6-i2c-scan/lib/twi/twi.c:132 | a byte from 16 on prints as its high nibble's digit then its low nibble's digit |
| Hex.FormatExamples | solutions/lab6-i2c-scan/lib/twi/twi.c:136-141 | the display, EEPROM and RTC addresses 0x3c, 0x57 and 0x68 print as "3c", "57" and "68" |
| Console.ReportLines | solutions/lab6-i2c-scan/lib/twi/twi.c:130-134 | reporting n addresses makes 2n `uart_puts` calls: a line break, then the address's base-16 text, for each address in order |
| Console.ReportLinesSnoc | solutions/lab6-i2c-scan/lib/twi/twi.c:130-134 | one more reported address appends its two strings and changes nothing already sent |
| Console.ReportTextSnoc | solutions/lab6-i2c-scan/lib/twi/twi.c:131-133 | one more reported address extends the console text by "\r\n" and the address's digits |
| Console.ParseReport | solutions/lab6-i2c-scan/lib/twi/twi.c:130-134 | the console text of a report can be read back into exactly the list of reported addresses |
| Console.ReportTextInjective | solutions/lab6-i2c-scan/lib/twi/twi.c:130-134 | different address lists never give the same console text |
| Scan.AckedBelowExactly | solutions/lab6-i2c-scan/lib/twi/twi.c:125-134 | after the addresses below n have been scanned, the report holds exactly the acknowledging addresses of 8..n-1, in strictly ascending order |
| Scan.AckedExactly | solutions/lab6-i2c-scan/lib/twi/twi.c:125-134 | the full report holds exactly the addresses of 8..119 whose probe is acknowledged, in strictly ascending order |
| Scan.AckedStep | solutions/lab6-i2c-scan/lib/twi/twi.c:130-134 | scanning one more address appends it to the report when it acknowledges and leaves the report unchanged when it does not |
| Scan.TraceBelowClosedForm | solutions/lab6-i2c-scan/lib/twi/twi.c:125-128 | probing 8..n-1 in turn gives 3(n-8) bus events, event k being step k mod 3 (start, SLA+W, stop) of the probe of address 8 + k/3 |
| Scan.ReportAddress | solutions/lab6-i2c-scan/lib/twi/twi.c:130-134 | the report step for an acknowledging address makes two `uart_puts` calls, a line break and then the address's base-16 text, and turns a report of the addresses so far into a report of those addresses followed by this one |
| Scan.Probe | solutions/lab6-i2c-scan/lib/twi/twi.c:126-128 | one probe puts start, the SLA+W byte of the address and stop on the bus, leaves TWCR at the stop word, and reports ACK exactly when the bus acknowledges that byte |
| Scan.ScanBus | solutions/lab6-i2c-scan/lib/twi/twi.c:120-144 | the scan's bus trace is the full probe trace of 8..119, its console output is the report of exactly the acknowledging addresses in ascending order, it ends with the stop word in TWCR, and it leaves the pin and bit-rate registers alone |
| ScanProperties.ProbeBlocks | solutions/lab6-i2c-scan/lib/twi/twi.c:125-128 | each probe is start, SLA+W and stop, with nothing in between |
| ScanProperties.SentAddress | solutions/lab6-i2c-scan/lib/twi/twi.c:125-127 | a byte sent at trace position k is the middle step of probe k/3 and names address 8 + k/3 |
| ScanProperties.ProbesInRange | solutions/lab6-i2c-scan/lib/twi/twi.c:125-127 | every byte sent names an address of 8..119 in its top seven bits and carries the write bit in bit 0 |
| ScanProperties.ProbesAscending | solutions/lab6-i2c-scan/lib/twi/twi.c:125 | a later probe always names a strictly higher address |
| ScanProperties.SendsAtMost | solutions/lab6-i2c-scan/lib/twi/twi.c:125-127 | the SLA+W byte of a 7-bit address is sent only by that address's own probe, and only when the address is in 8..119 |
| ScanProperties.SendsAtLeast | solutions/lab6-i2c-scan/lib/twi/twi.c:125-127 | the probe of each address of 8..119 does send its SLA+W byte |
| ScanProperties.ProbedOnce | solutions/lab6-i2c-scan/lib/twi/twi.c:125-127 | each address of 8..119 is probed exactly once, at its own trace position; the reserved addresses 0..7 and 120..127 are never probed |
| ScanProperties.SilentBus | solutions/lab6-i2c-scan/lib/twi/twi.c:130-134 | a bus that never acknowledges produces no console output |
| ScanProperties.SameAcksBelow | solutions/lab6-i2c-scan/lib/twi/twi.c:125-134 | two buses that acknowledge the same addresses below n give the same partial report |
| ScanProperties.SameAcksSameReport | solutions/lab6-i2c-scan/lib/twi/twi.c:125-134 | the console output depends only on which addresses acknowledge |
| ScanProperties.DevicesFound | solutions/lab6-i2c-scan/lib/twi/twi.c:125-134 | on a bus whose devices acknowledge their own SLA+W, the scan reports an address exactly when a device sits there and the address is in 8..119 |
| ScanProperties.IncreasingUnique | solutions/lab6-i2c-scan/lib/twi/twi.c:125 | two ascending address lists with the same members are equal, so the ascending scan order fixes the report |
| ScanProperties.ScanOfDevices | solutions/lab6-i2c-scan/lib/twi/twi.c:125-134 | on a device bus the report is the ascending list of the devices in 8..119 |
| ScanProperties.ScenarioOneDevice | solutions/lab6-i2c-scan/lib/twi/twi.c:125-137 | devices at 7, 0x3c and 120 give the report [0x3c] and the console text "\r\n3c" |
| ScanProperties.ScenarioTwoDevices | solutions/lab6-i2c-scan/lib/twi/twi.c:125-141 | devices at 0x68 and 0x57 give the report [0x57, 0x68] and the console text "\r\n57\r\n68" |
| ScanProperties.ReportedWidth | solutions/lab6-i2c-scan/lib/twi/twi.c:132 | every reported address prints as one digit when below 16 and as two digits otherwise |

## Left out

- The busy-waits on TWINT at lines 48, 65 and 95 are not modelled as loops, because how long they run depends on the hardware. The waits at lines 65 and 95 are single completion steps, with the resulting TWSR (for `Write`) or TWDR (for `Read`) value as a parameter. The wait at line 48 after a start condition has no effect in the model.
- The status the hardware writes to TWSR after a start condition or a byte read is not modelled: for example 0x08 after a start, and 0x50 or 0x58 after a read. `Twi.Start` and `Twi.Read` leave TWSR unchanged. The driver never reads TWSR at those points, and `Twi.Write` sets TWSR from the bus oracle before classifying it.
- The bit changes the hardware makes to TWCR itself, such as TWINT being set on completion or TWSTO clearing after a stop, are not modelled. The `twcr` field holds the last word the driver wrote.
- `twi.h` and the AVR register headers are not part of this model. The bit positions, `TWI_ACK`, `TWI_WRITE` and `TWI_BIT_RATE_REG` are symbolic `Twi.Config` fields. The SCL-frequency arithmetic behind `TWI_BIT_RATE_REG` is left out.
- Peter Fleury's UART library is not part of this model. Each `uart_puts` call is one string appended to a list, and baud rate and transmission are left out.
- `itoa` is modelled only for the non-negative values the scan passes to it, as the pure function `Hex.Format`. Its buffer is not modelled. `char string[2]` at line 123 has room for one character and the terminating NUL, so a two-digit address overruns it. The model records the text that `itoa` produces and does not model that memory.
- The loop counter `sla` is a `uint8_t` in the source. It stays within 8..120, so it never wraps, and the model uses a natural number.
- `Console.Parse` only exists to state that the report can be read back. On text that is not a well-formed report, it keeps only the well-formed lines at the end and drops everything before the first malformed line from the end.
- Electrical and bus-timing behaviour is left out: arbitration, clock stretching and bus errors. The driver folds all of them into NACK, and the model does the same through the status byte the bus oracle returns.
